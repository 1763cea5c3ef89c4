/**
 * The services every change consumer inherits: extracting a prefixed subset of the
 * configuration, converting an event's payload to bytes or to a string, the message
 * for an unsupported payload type, and turning an event's headers into a map.
 */
module BaseChangeConsumer {
  import opened Wrappers
  import opened JavaText

  /** A payload as the capture engine hands it over: null, a String, a byte[] or an object of some other class. */
  datatype Value = Null | Str(s: string) | Bytes(b: seq<byte>) | Other(className: string)

  /** One header of a change event: a key and a payload-like value. */
  datatype Header = Header(key: string, value: Value)

  /** What Java prints for the class of a value: `null` for null, the class name otherwise. */
  function TypeName(v: Value): string {
    match v
    case Null => "null"
    case Str(_) => "java.lang.String"
    case Bytes(_) => "[B"
    case Other(c) => c
  }

  const MessageHead: string := "Unexpected data type '"

  /** The message of the exception thrown for a payload of an unsupported type. */
  function UnsupportedTypeMessage(v: Value): (msg: string)
    ensures |msg| == |MessageHead| + |TypeName(v)| + 1
    ensures msg[..|MessageHead|] == MessageHead && msg[|msg| - 1] == '\''
    ensures msg[|MessageHead|..|msg| - 1] == TypeName(v)
  {
    MessageHead + TypeName(v) + "'"
  }

  /** The message names the offending type and nothing else: two messages agree exactly when the type names do. */
  lemma UnsupportedTypeMessageNamesType(v: Value, w: Value)
    ensures UnsupportedTypeMessage(v) == UnsupportedTypeMessage(w) <==> TypeName(v) == TypeName(w)
  {
    var mv, mw := UnsupportedTypeMessage(v), UnsupportedTypeMessage(w);
    if mv == mw {
      assert TypeName(v) == mv[|MessageHead|..|mv| - 1] == mw[|MessageHead|..|mw| - 1] == TypeName(w);
    }
  }

  /** `getBytes`: a byte[] as it is, a String as its UTF-8 bytes; anything else, null included, fails. */
  function GetBytes(v: Value): (r: Result<seq<byte>, string>)
    ensures r.Ok? <==> v.Bytes? || v.Str?
    ensures v.Bytes? ==> r.value == v.b
    ensures v.Str? ==> r.value == Utf8Encode(v.s) && Utf8Decode(r.value) == v.s
    ensures r.Err? ==> r.error == UnsupportedTypeMessage(v)
  {
    match v
    case Bytes(b) => Ok(b)
    case Str(s) => Utf8RoundTrip(s); Ok(Utf8Encode(s))
    case _ => Err(UnsupportedTypeMessage(v))
  }

  /** `getString`: a String as it is; anything else fails. */
  function GetString(v: Value): (r: Result<string, string>)
    ensures r.Ok? <==> v.Str?
    ensures r.Ok? ==> r.value == v.s
    ensures r.Err? ==> r.error == UnsupportedTypeMessage(v)
  {
    if v.Str? then Ok(v.s) else Err(UnsupportedTypeMessage(v))
  }

  /**
   * The two conversions agree where both succeed: a value readable as a string has as
   * bytes the UTF-8 encoding of that string, and getBytes accepts strictly more values
   * than getString (a byte[] is bytes but not a string).
   */
  lemma GetBytesExtendsGetString(v: Value)
    ensures GetString(v).Ok? ==> GetBytes(v) == Ok(Utf8Encode(GetString(v).value))
    ensures GetString(v).Ok? ==> GetBytes(v).Ok?
    ensures v.Bytes? ==> GetBytes(v).Ok? && GetString(v).Err?
    ensures !v.Bytes? && !v.Str? ==> GetBytes(v).Err? && GetBytes(v).error == GetString(v).error
  {
  }

  /** The property names among `names` that start with `prefix`. */
  function PrefixedNames(names: seq<string>, prefix: string): set<string> {
    set n | n in names && prefix <= n
  }

  /**
   * The subset of the configuration under prefix-stripped names, built over `names` in
   * order: each name with the prefix puts its value under the name with the prefix removed.
   */
  function SubsetMap(names: seq<string>, values: map<string, string>, prefix: string): map<string, string>
    requires forall n :: n in names ==> n in values
    decreases |names|
  {
    if names == [] then map[]
    else
      var last := names[|names| - 1];
      var m := SubsetMap(names[..|names| - 1], values, prefix);
      if prefix <= last then m[last[|prefix|..] := values[last]] else m
  }

  /**
   * The subset holds exactly the names that, with the prefix put back, are configuration
   * names; each under the value of its full name; one entry per prefixed name.
   */
  lemma {:induction false} SubsetMapSpec(names: seq<string>, values: map<string, string>, prefix: string)
    requires forall n :: n in names ==> n in values
    ensures forall k :: k in SubsetMap(names, values, prefix) <==> prefix + k in names
    ensures forall k :: k in SubsetMap(names, values, prefix) ==> SubsetMap(names, values, prefix)[k] == values[prefix + k]
    ensures |SubsetMap(names, values, prefix)| == |PrefixedNames(names, prefix)|
    decreases |names|
  {
    if names != [] {
      var init := names[..|names| - 1];
      var last := names[|names| - 1];
      assert names == init + [last];
      SubsetMapSpec(init, values, prefix);
      var m := SubsetMap(init, values, prefix);
      if prefix <= last {
        var key := last[|prefix|..];
        assert prefix + key == last;
        forall k | prefix + k == last
          ensures k == key
        {
          assert k == (prefix + k)[|prefix|..];
        }
        if last in PrefixedNames(init, prefix) {
          assert PrefixedNames(names, prefix) == PrefixedNames(init, prefix);
          assert key in m;
        } else {
          assert PrefixedNames(names, prefix) == PrefixedNames(init, prefix) + {last};
          assert key !in m;
        }
      } else {
        assert PrefixedNames(names, prefix) == PrefixedNames(init, prefix);
      }
    }
  }

  /**
   * `getConfigSubset`: visits the configuration's property names in order and, for each
   * name starting with `prefix`, records its value under the name with the prefix removed.
   */
  method GetConfigSubset(names: seq<string>, values: map<string, string>, prefix: string)
    returns (ret: map<string, string>)
    requires forall n :: n in names ==> n in values
    ensures forall k :: k in ret <==> prefix + k in names
    ensures forall k :: k in ret ==> ret[k] == values[prefix + k]
    ensures |ret| == |PrefixedNames(names, prefix)|
  {
    ret := map[];
    for i := 0 to |names|
      invariant ret == SubsetMap(names[..i], values, prefix)
    {
      var propName := names[i];
      assert names[..i + 1][..i] == names[..i];
      if prefix <= propName {
        var newPropName := propName[|prefix|..];
        ret := ret[newPropName := values[propName]];
      }
    }
    assert names[..|names|] == names;
    SubsetMapSpec(names, values, prefix);
  }

  /** With an empty prefix the subset is the whole configuration under unchanged names. */
  lemma ConfigSubsetWithEmptyPrefix(names: seq<string>, values: map<string, string>, ret: map<string, string>)
    requires forall n :: n in names ==> n in values
    requires forall k :: k in ret <==> "" + k in names
    requires forall k :: k in ret ==> ret[k] == values["" + k]
    ensures ret == map n | n in names :: values[n]
  {
    assert forall k :: "" + k == k;
  }

  /** All header values are Strings. */
  predicate AllStrings(headers: seq<Header>) {
    forall i :: 0 <= i < |headers| ==> headers[i].value.Str?
  }

  /** The map built from string-valued headers, in order: each header overwrites its key. */
  function HeaderMap(headers: seq<Header>): map<string, string>
    requires AllStrings(headers)
    decreases |headers|
  {
    if headers == [] then map[]
    else
      var last := headers[|headers| - 1];
      HeaderMap(headers[..|headers| - 1])[last.key := last.value.s]
  }

  /** The keys of the header map are exactly the header keys. */
  lemma {:induction false} HeaderMapKeys(headers: seq<Header>)
    requires AllStrings(headers)
    ensures HeaderMap(headers).Keys == set i | 0 <= i < |headers| :: headers[i].key
    decreases |headers|
  {
    if headers != [] {
      var init := headers[..|headers| - 1];
      HeaderMapKeys(init);
      var keys := set i | 0 <= i < |headers| :: headers[i].key;
      var initKeys := set i | 0 <= i < |init| :: init[i].key;
      assert keys == initKeys + {headers[|headers| - 1].key} by {
        forall k | k in keys ensures k in initKeys + {headers[|headers| - 1].key} {
          var i :| 0 <= i < |headers| && headers[i].key == k;
          if i < |init| { assert init[i].key == k; }
        }
        forall k | k in initKeys ensures k in keys {
          var i :| 0 <= i < |init| && init[i].key == k;
          assert headers[i].key == k;
        }
      }
    }
  }

  /** A repeated key takes the value of its last header. */
  lemma {:induction false} HeaderMapLastWins(headers: seq<Header>)
    requires AllStrings(headers)
    ensures forall i :: 0 <= i < |headers|
                        && (forall j :: i < j < |headers| ==> headers[j].key != headers[i].key)
                        ==> headers[i].key in HeaderMap(headers) && HeaderMap(headers)[headers[i].key] == headers[i].value.s
    decreases |headers|
  {
    HeaderMapKeys(headers);
    if headers != [] {
      var init := headers[..|headers| - 1];
      HeaderMapLastWins(init);
      HeaderMapKeys(init);
      assert forall i :: 0 <= i < |init| ==> init[i] == headers[i];
    }
  }

  /**
   * `convertHeaders`: puts every header's value, read as a string, under its key; the
   * first header whose value is not a String makes the whole conversion fail.
   */
  method ConvertHeaders(headers: seq<Header>) returns (r: Result<map<string, string>, string>)
    ensures r.Ok? <==> AllStrings(headers)
    ensures r.Ok? ==> r.value == HeaderMap(headers)
    ensures r.Err? ==> exists i :: 0 <= i < |headers| && !headers[i].value.Str?
                                   && (forall j :: 0 <= j < i ==> headers[j].value.Str?)
                                   && r.error == UnsupportedTypeMessage(headers[i].value)
  {
    var result := map[];
    for i := 0 to |headers|
      invariant forall j :: 0 <= j < i ==> headers[j].value.Str?
      invariant result == HeaderMap(headers[..i])
    {
      var header := headers[i];
      var s := GetString(header.value);
      if s.Err? {
        return Err(s.error);
      }
      assert headers[..i + 1][..i] == headers[..i];
      result := result[header.key := s.value];
    }
    assert headers[..|headers|] == headers;
    r := Ok(result);
  }
}
