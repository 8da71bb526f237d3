/**
 Decoding of a NUL-terminated C string into a Rust `String`: the bytes are read
 from index 0 up to, and not including, the first NUL byte, and each byte
 becomes the character whose code point is that byte's unsigned value.

 The raw pointer is modelled as an array of bytes that holds the terminating
 NUL; the C `char` is taken as its unsigned byte, which is what the conversion
 through `u8` yields whatever the platform's signedness of `c_char`.
 */
module CStr {

  /** Rust's `u8`: one byte of the buffer, read as unsigned. */
  newtype U8 = b: int | 0 <= b < 256

  /** The byte that terminates a C string. */
  const NUL: U8 := 0

  /** `b as u8 as char`: a byte widens to the character with the same code point. */
  function CharOf(b: U8): (c: char)
    ensures c as int == b as int
  {
    (b as int) as char
  }

  /** The index of the first NUL byte of `s`. */
  function FirstNul(s: seq<U8>): (i: nat)
    requires NUL in s
    ensures i < |s| && s[i] == NUL
    ensures forall j :: 0 <= j < i ==> s[j] != NUL
  {
    if s[0] == NUL then 0
    else
      assert s == [s[0]] + s[1..];
      FirstNul(s[1..]) + 1
  }

  /**
   Reference decoding, one byte at a time: the characters of the bytes before
   the first NUL, in order.
   */
  function Decode(s: seq<U8>): (r: string)
    requires NUL in s
    ensures |r| == FirstNul(s)
    ensures forall k :: 0 <= k < |r| ==> r[k] == CharOf(s[k])
  {
    if s[0] == NUL then ""
    else
      assert s == [s[0]] + s[1..];
      [CharOf(s[0])] + Decode(s[1..])
  }

  /** The byte of a character whose code point fits in one byte: the inverse of `CharOf`. */
  function ByteOf(c: char): (b: U8)
    requires c as int < 256
    ensures CharOf(b) == c
  {
    c as int as U8
  }

  /**
   The C string of a text whose characters all fit in one non-NUL byte: those
   bytes followed by the terminating NUL.
   */
  function Encode(w: string): (s: seq<U8>)
    requires forall k :: 0 <= k < |w| ==> 0 < w[k] as int < 256
    ensures |s| == |w| + 1 && s[|w|] == NUL
    ensures forall k :: 0 <= k < |w| ==> s[k] != NUL && CharOf(s[k]) == w[k]
  {
    if |w| == 0 then [NUL]
    else [ByteOf(w[0])] + Encode(w[1..])
  }

  /**
   Reads `cstr` from index 0 until the first NUL byte and returns the
   characters of the bytes before it. The loop never reads beyond that NUL.
   */
  method CStrToString(cstr: array<U8>) returns (str: string)
    requires NUL in cstr[..]
    ensures |str| == FirstNul(cstr[..])
    ensures forall k :: 0 <= k < |str| ==> str[k] == CharOf(cstr[k])
    ensures '\0' !in str
    ensures str == Decode(cstr[..])
  {
    ghost var end := FirstNul(cstr[..]);
    var index := 0;
    str := "";
    while true
      invariant index <= end
      invariant |str| == index
      invariant forall k :: 0 <= k < index ==> str[k] == CharOf(cstr[k]) && cstr[k] != NUL
      decreases end - index
    {
      var currChar := cstr[index];
      if currChar == NUL {
        break;
      }
      str := str + [CharOf(currChar)];
      index := index + 1;
    }
  }

  /** The five bytes of `hello` and a NUL, decoded, give `"hello"`. */
  method DecodeHello() returns (hello: string)
    ensures hello == "hello"
  {
    var buf := new U8[6];
    buf[0], buf[1], buf[2], buf[3], buf[4], buf[5] := 0x68, 0x65, 0x6C, 0x6C, 0x6F, NUL;
    assert buf[..][5] == NUL;
    hello := CStrToString(buf);
    assert FirstNul(buf[..]) == 5;
  }

  // ---------------------------------------------------------------------------
  // Lemmas
  // ---------------------------------------------------------------------------

  /** A buffer whose first byte is NUL decodes to the empty string. */
  lemma LeadingNulIsEmpty(s: seq<U8>)
    requires |s| > 0 && s[0] == NUL
    ensures Decode(s) == ""
  {
  }

  /**
   Bytes after the first NUL do not matter: two buffers that agree up to and
   including the first NUL of one of them decode alike.
   */
  lemma TailIsIgnored(s: seq<U8>, t: seq<U8>)
    requires NUL in s
    requires FirstNul(s) < |t| && t[..FirstNul(s) + 1] == s[..FirstNul(s) + 1]
    ensures NUL in t
    ensures Decode(t) == Decode(s)
  {
    var i := FirstNul(s);
    forall j | 0 <= j <= i ensures t[j] == s[j] {
      assert t[..i + 1][j] == t[j] && s[..i + 1][j] == s[j];
    }
    assert t[i] == NUL;
    assert FirstNul(t) == i;
  }

  /** Round trip from text: decoding the C string of a text gives the text back. */
  lemma DecodeEncode(w: string)
    requires forall k :: 0 <= k < |w| ==> 0 < w[k] as int < 256
    ensures NUL in Encode(w)
    ensures Decode(Encode(w)) == w
  {
    var s := Encode(w);
    assert s[|w|] == NUL;
    assert FirstNul(s) == |w|;
  }

  /**
   Round trip from bytes: encoding the decoded text rebuilds the buffer up to
   and including its first NUL.
   */
  lemma {:induction false} EncodeDecode(s: seq<U8>)
    requires NUL in s
    ensures forall k :: 0 <= k < |Decode(s)| ==> 0 < Decode(s)[k] as int < 256
    ensures Encode(Decode(s)) == s[..FirstNul(s) + 1]
    decreases |s|
  {
    var w := Decode(s);
    assert forall k :: 0 <= k < |w| ==> w[k] as int == s[k] as int && s[k] != NUL;
    if s[0] != NUL {
      var rest := s[1..];
      assert NUL in rest by { assert s == [s[0]] + rest; }
      EncodeDecode(rest);
      assert w == [CharOf(s[0])] + Decode(rest);
      assert w[1..] == Decode(rest);
      assert ByteOf(w[0]) == s[0];
      assert FirstNul(s) == FirstNul(rest) + 1;
      assert s[..FirstNul(s) + 1] == [s[0]] + rest[..FirstNul(rest) + 1];
    }
  }
}
