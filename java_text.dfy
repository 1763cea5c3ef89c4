/**
 * The two pieces of the Java platform's string handling that the sink relies on:
 * `String.split(",")` (used to read the list of hub names) and the UTF-8 encoding
 * of `String.getBytes(StandardCharsets.UTF_8)` (used to turn a string payload into bytes).
 * Strings are sequences of Unicode scalar values.
 */
module JavaText {

  type byte = b: int | 0 <= b < 256

  // ---------------------------------------------------------------------------
  // Splitting on commas
  // ---------------------------------------------------------------------------

  /** The pieces of `s` between commas: always one more piece than there are commas. */
  function Fields(s: string): (r: seq<string>)
    ensures |r| >= 1
    decreases |s|
  {
    if s == [] then [""]
    else if s[0] == ',' then [""] + Fields(s[1..])
    else
      var rest := Fields(s[1..]);
      [[s[0]] + rest[0]] + rest[1..]
  }

  /** The pieces joined back together, one comma between neighbours. */
  function Join(parts: seq<string>): string
    decreases |parts|
  {
    if |parts| <= 1 then (if parts == [] then "" else parts[0])
    else parts[0] + "," + Join(parts[1..])
  }

  /** Splitting on commas loses nothing: joining the pieces gives back the string. */
  lemma {:induction false} JoinFields(s: string)
    ensures Join(Fields(s)) == s
    decreases |s|
  {
    if s == [] {
    } else if s[0] == ',' {
      JoinFields(s[1..]);
      assert Fields(s) == [""] + Fields(s[1..]);
      assert [','] + s[1..] == s;
    } else {
      var rest := Fields(s[1..]);
      JoinFields(s[1..]);
      if |rest| == 1 {
        assert Join(rest) == rest[0];
        assert Fields(s) == [[s[0]] + rest[0]];
        assert [s[0]] + s[1..] == s;
      } else {
        assert Join(rest) == rest[0] + "," + Join(rest[1..]);
        assert Fields(s)[1..] == rest[1..];
        assert Join(Fields(s)) == ([s[0]] + rest[0]) + "," + Join(rest[1..]);
        assert [s[0]] + s[1..] == s;
      }
    }
  }

  /** No piece contains a comma. */
  lemma {:induction false} FieldsHaveNoComma(s: string)
    ensures forall i :: 0 <= i < |Fields(s)| ==> ',' !in Fields(s)[i]
    decreases |s|
  {
    if s != [] {
      FieldsHaveNoComma(s[1..]);
      var rest := Fields(s[1..]);
      if s[0] != ',' {
        assert forall i :: 1 <= i < |Fields(s)| ==> Fields(s)[i] == rest[i];
      } else {
        assert forall i :: 1 <= i < |Fields(s)| ==> Fields(s)[i] == rest[i - 1];
      }
    }
  }

  /** `parts` without its trailing empty strings. */
  function StripTrailingEmpty(parts: seq<string>): (r: seq<string>)
    ensures r <= parts
    ensures r == [] || r[|r| - 1] != ""
    ensures forall i :: |r| <= i < |parts| ==> parts[i] == ""
    decreases |parts|
  {
    if parts == [] then []
    else if parts[|parts| - 1] == "" then StripTrailingEmpty(parts[..|parts| - 1])
    else parts
  }

  /**
   * Java's `s.split(",")`: when the string contains no comma the result is the string
   * itself as the only element (so `"".split(",")` is `[""]`); otherwise the pieces
   * between commas, with the trailing empty pieces removed.
   */
  function Split(s: string): (r: seq<string>)
    ensures ',' !in s ==> r == [s]
    ensures ',' in s ==> r <= Fields(s) && (r == [] || r[|r| - 1] != "")
    ensures ',' in s ==> forall i :: |r| <= i < |Fields(s)| ==> Fields(s)[i] == ""
    ensures forall i :: 0 <= i < |r| ==> ',' !in r[i]
  {
    FieldsHaveNoComma(s);
    if ',' !in s then [s] else StripTrailingEmpty(Fields(s))
  }

  // ---------------------------------------------------------------------------
  // UTF-8
  // ---------------------------------------------------------------------------

  /** The UTF-8 bytes of one scalar value: one byte below 0x80, up to four above. */
  function EncodeChar(c: char): (r: seq<byte>)
    ensures 1 <= |r| <= 4
    ensures (c as int < 0x80) <==> |r| == 1
  {
    var n := c as int;
    if n < 0x80 then [n]
    else if n < 0x800 then [0xC0 + n / 0x40, 0x80 + n % 0x40]
    else if n < 0x1_0000 then [0xE0 + n / 0x1000, 0x80 + (n / 0x40) % 0x40, 0x80 + n % 0x40]
    else [0xF0 + n / 0x4_0000, 0x80 + (n / 0x1000) % 0x40, 0x80 + (n / 0x40) % 0x40, 0x80 + n % 0x40]
  }

  /** The UTF-8 encoding of a string, character by character. */
  function Utf8Encode(s: string): seq<byte>
    decreases |s|
  {
    if s == [] then [] else EncodeChar(s[0]) + Utf8Encode(s[1..])
  }

  /** The length of the lead byte's sequence, read from its high bits; 0 for a continuation byte. */
  function SequenceLength(lead: byte): nat {
    if lead < 0x80 then 1
    else if lead < 0xC0 then 0
    else if lead < 0xE0 then 2
    else if lead < 0xF0 then 3
    else 4
  }

  /** The scalar value held by one complete byte sequence of the given length. */
  function DecodeScalar(b: seq<byte>): int
    requires 1 <= |b| <= 4
  {
    if |b| == 1 then b[0] as int
    else if |b| == 2 then (b[0] as int - 0xC0) * 0x40 + (b[1] as int - 0x80)
    else if |b| == 3 then (b[0] as int - 0xE0) * 0x1000 + (b[1] as int - 0x80) * 0x40 + (b[2] as int - 0x80)
    else (b[0] as int - 0xF0) * 0x4_0000 + (b[1] as int - 0x80) * 0x1000 + (b[2] as int - 0x80) * 0x40 + (b[3] as int - 0x80)
  }

  /**
   * Decodes UTF-8 bytes by their lead bytes. Decoding stops at a stray continuation byte,
   * a truncated sequence or a value that is not a Unicode scalar. Continuation bytes are
   * not checked and overlong forms are accepted: this is a left inverse of `Utf8Encode`,
   * not a validator.
   */
  function Utf8Decode(b: seq<byte>): (r: seq<char>)
    decreases |b|
  {
    if b == [] then []
    else
      var k := SequenceLength(b[0]);
      if k == 0 || k > |b| then []
      else
        var n := DecodeScalar(b[..k]);
        if 0 <= n < 0xD800 || 0xE000 <= n < 0x11_0000 then [n as char] + Utf8Decode(b[k..])
        else []
  }

  /** One character's bytes announce their own length and decode back to that character. */
  lemma EncodeCharDecodes(c: char)
    ensures SequenceLength(EncodeChar(c)[0]) == |EncodeChar(c)|
    ensures DecodeScalar(EncodeChar(c)) == c as int
  {
    var n := c as int;
    var e := EncodeChar(c);
    if n < 0x80 {
    } else if n < 0x800 {
      assert n == (n / 0x40) * 0x40 + n % 0x40;
      assert DecodeScalar(e) == (n / 0x40) * 0x40 + n % 0x40;
    } else if n < 0x1_0000 {
      var q := n / 0x40;
      assert n == q * 0x40 + n % 0x40;
      assert q == (q / 0x40) * 0x40 + q % 0x40;
      assert q / 0x40 == n / 0x1000;
      assert DecodeScalar(e) == (n / 0x1000) * 0x1000 + (q % 0x40) * 0x40 + n % 0x40;
    } else {
      var q := n / 0x40;
      var q2 := q / 0x40;
      assert n == q * 0x40 + n % 0x40;
      assert q == q2 * 0x40 + q % 0x40;
      assert q2 == n / 0x1000;
      assert q2 == (q2 / 0x40) * 0x40 + q2 % 0x40;
      assert q2 / 0x40 == n / 0x4_0000;
      assert DecodeScalar(e) == (n / 0x4_0000) * 0x4_0000 + (q2 % 0x40) * 0x1000 + (q % 0x40) * 0x40 + n % 0x40;
    }
  }

  /** Encoding is injective: decoding the UTF-8 bytes of a string gives the string back. */
  lemma {:induction false} Utf8RoundTrip(s: string)
    ensures Utf8Decode(Utf8Encode(s)) == s
    decreases |s|
  {
    if s != [] {
      var e := EncodeChar(s[0]);
      var b := Utf8Encode(s);
      EncodeCharDecodes(s[0]);
      assert b == e + Utf8Encode(s[1..]);
      assert b[0] == e[0];
      assert b[..|e|] == e;
      assert b[|e|..] == Utf8Encode(s[1..]);
      Utf8RoundTrip(s[1..]);
      assert (s[0] as int) as char == s[0];
    }
  }

  /** Every character costs between one and four bytes, and ASCII text costs exactly one byte each. */
  lemma {:induction false} Utf8Length(s: string)
    ensures |s| <= |Utf8Encode(s)| <= 4 * |s|
    ensures (forall i :: 0 <= i < |s| ==> s[i] as int < 0x80) ==> |Utf8Encode(s)| == |s|
    decreases |s|
  {
    if s != [] {
      Utf8Length(s[1..]);
      assert forall i :: 0 <= i < |s[1..]| ==> s[1..][i] == s[i + 1];
    }
  }
}
