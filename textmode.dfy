/** Python's text-mode file reading, `Path.read_text()`: strict UTF-8 decoding followed
    by universal-newline translation. A text is kept as its UTF-8 bytes, which is what
    `Path.write_text()` stores. */
module TextMode {
  import opened GitTree

  const CR: byte := 13
  const LF: byte := 10

  /** A continuation byte of a UTF-8 sequence. */
  predicate Cont(x: byte)
  {
    0x80 <= x <= 0xBF
  }

  /** The length of the well-formed UTF-8 sequence `b` starts with, or 0 when there is
      none. The byte ranges are those of table 3-7 of the Unicode Standard, which Python's
      strict decoder enforces: no overlong forms, no surrogates, nothing above U+10FFFF. */
  function SeqLength(b: Bytes): (n: nat)
    ensures n <= |b| && n <= 4
    ensures forall k :: 1 <= k < n ==> Cont(b[k])
  {
    if b == [] then 0
    else if b[0] < 0x80 then 1
    else if 0xC2 <= b[0] <= 0xDF then
      if |b| >= 2 && Cont(b[1]) then 2 else 0
    else if 0xE0 <= b[0] <= 0xEF then
      var lo: byte := if b[0] == 0xE0 then 0xA0 else 0x80;
      var hi: byte := if b[0] == 0xED then 0x9F else 0xBF;
      if |b| >= 3 && lo <= b[1] <= hi && Cont(b[2]) then 3 else 0
    else if 0xF0 <= b[0] <= 0xF4 then
      var lo: byte := if b[0] == 0xF0 then 0x90 else 0x80;
      var hi: byte := if b[0] == 0xF4 then 0x8F else 0xBF;
      if |b| >= 4 && lo <= b[1] <= hi && Cont(b[2]) && Cont(b[3]) then 4 else 0
    else 0
  }

  /** `b.decode("utf-8")` succeeds: `b` is a run of well-formed sequences. */
  predicate Utf8(b: Bytes)
    decreases |b|
  {
    b == [] || (SeqLength(b) > 0 && Utf8(b[SeqLength(b)..]))
  }

  /** Universal newlines: each "\r\n" and each lone "\r" becomes "\n". */
  function Universal(b: Bytes): (r: Bytes)
    ensures CR !in r
    ensures |r| <= |b|
    decreases |b|
  {
    if b == [] then []
    else if b[0] == CR then [LF] + Universal(if |b| > 1 && b[1] == LF then b[2..] else b[1..])
    else [b[0]] + Universal(b[1..])
  }

  /** `read_text()` of a file holding `b`: its text with universal newlines, or None when
      `b` does not decode (UnicodeDecodeError). */
  function ReadText(b: Bytes): Option<Bytes>
  {
    if Utf8(b) then Some(Universal(b)) else None
  }

  /** The translation changes exactly the texts holding a carriage return. */
  lemma {:induction false} UniversalFixed(b: Bytes)
    ensures Universal(b) == b <==> CR !in b
    decreases |b|
  {
    if b != [] && b[0] != CR {
      UniversalFixed(b[1..]);
      assert b == [b[0]] + b[1..];
    }
  }

  /** Bytes other than "\r" at the front pass through the translation unchanged. */
  lemma {:induction false} UniversalPrefix(b: Bytes, n: nat)
    requires n <= |b| && forall k :: 0 <= k < n ==> b[k] != CR
    ensures Universal(b) == b[..n] + Universal(b[n..])
    decreases n
  {
    if n > 0 {
      UniversalPrefix(b[1..], n - 1);
      assert b[1..][n - 1..] == b[n..];
      assert b[..n] == [b[0]] + b[1..][..n - 1];
    }
  }

  /** The sequence at the front depends only on its own bytes. */
  lemma SeqLengthAgrees(b: Bytes, c: Bytes)
    requires 0 < SeqLength(b) <= |c| && forall k :: 0 <= k < SeqLength(b) ==> c[k] == b[k]
    ensures SeqLength(c) == SeqLength(b)
  {
    var n := SeqLength(b);
    assert c[0] == b[0];
    assert n >= 2 ==> c[1] == b[1];
    assert n >= 3 ==> c[2] == b[2];
    assert n >= 4 ==> c[3] == b[3];
  }

  /** Texts concatenate: two decodable byte strings decode together. */
  lemma {:induction false} Utf8Concat(a: Bytes, b: Bytes)
    requires Utf8(a) && Utf8(b)
    ensures Utf8(a + b)
    decreases |a|
  {
    if a != [] {
      var n := SeqLength(a);
      SeqLengthAgrees(a, a + b);
      assert (a + b)[n..] == a[n..] + b;
      Utf8Concat(a[n..], b);
    }
  }

  /** The translation of decodable bytes decodes: `read_text()` always returns text. */
  lemma {:induction false} UniversalKeepsUtf8(b: Bytes)
    requires Utf8(b)
    ensures Utf8(Universal(b))
    decreases |b|
  {
    if b != [] {
      var n := SeqLength(b);
      if b[0] == CR {
        var rest := if |b| > 1 && b[1] == LF then b[2..] else b[1..];
        if |b| > 1 && b[1] == LF {
          assert SeqLength(b[1..]) == 1 && b[1..][1..] == b[2..];
        }
        UniversalKeepsUtf8(rest);
        assert Utf8([LF]);
        Utf8Concat([LF], Universal(rest));
      } else {
        UniversalPrefix(b, n);
        UniversalKeepsUtf8(b[n..]);
        SeqLengthAgrees(b, b[..n] + Universal(b[n..]));
        assert (b[..n] + Universal(b[n..]))[n..] == Universal(b[n..]);
      }
    }
  }

  /** A Unicode scalar value: a code point that is not a surrogate. */
  predicate Scalar(cp: nat)
  {
    cp < 0x11_0000 && !(0xD800 <= cp < 0xE000)
  }

  /** The UTF-8 encoding `str.encode("utf-8")` gives the character `cp`. */
  function Encode(cp: nat): (r: Bytes)
    requires Scalar(cp)
  {
    if cp < 0x80 then [cp as byte]
    else if cp < 0x800 then [(0xC0 + cp / 0x40) as byte, (0x80 + cp % 0x40) as byte]
    else if cp < 0x1_0000 then
      [(0xE0 + cp / 0x1000) as byte, (0x80 + cp / 0x40 % 0x40) as byte, (0x80 + cp % 0x40) as byte]
    else
      [(0xF0 + cp / 0x4_0000) as byte, (0x80 + cp / 0x1000 % 0x40) as byte,
       (0x80 + cp / 0x40 % 0x40) as byte, (0x80 + cp % 0x40) as byte]
  }

  /** The UTF-8 encoding of a string of scalar values, as `write_text` stores it. */
  function EncodeAll(cps: seq<nat>): Bytes
    requires forall i :: 0 <= i < |cps| ==> Scalar(cps[i])
  {
    if cps == [] then [] else Encode(cps[0]) + EncodeAll(cps[1..])
  }

  /** Each encoded character is one well-formed sequence. */
  lemma EncodeIsOneSequence(cp: nat)
    requires Scalar(cp)
    ensures SeqLength(Encode(cp)) == |Encode(cp)| > 0
  {
    if 0x800 <= cp < 0x1_0000 {
      ThreeByteSequence(cp);
    } else if 0x1_0000 <= cp {
      FourByteSequence(cp);
    }
  }

  /** The second byte of a three-byte encoding keeps within the range its lead byte allows. */
  lemma ThreeByteSequence(cp: nat)
    requires Scalar(cp) && 0x800 <= cp < 0x1_0000
    ensures SeqLength(Encode(cp)) == 3
  {
    var m := cp / 0x40 % 0x40;
    assert cp / 0x1000 * 0x40 + m == cp / 0x40;
    assert cp < 0x1000 ==> m >= 0x20;
    assert 0xD000 <= cp < 0xD800 ==> m < 0x20;
  }

  /** The second byte of a four-byte encoding keeps within the range its lead byte allows. */
  lemma FourByteSequence(cp: nat)
    requires Scalar(cp) && 0x1_0000 <= cp
    ensures SeqLength(Encode(cp)) == 4
  {
    var m := cp / 0x1000 % 0x40;
    assert cp / 0x4_0000 * 0x40 + m == cp / 0x1000;
    assert cp < 0x4_0000 ==> m >= 0x10;
    assert 0x10_0000 <= cp ==> m < 0x10;
  }

  /** What `write_text` stores always decodes, so the `read_text()` that follows it never
      raises. */
  lemma {:induction false} EncodedIsUtf8(cps: seq<nat>)
    requires forall i :: 0 <= i < |cps| ==> Scalar(cps[i])
    ensures Utf8(EncodeAll(cps))
  {
    if cps != [] {
      var e := Encode(cps[0]);
      EncodeIsOneSequence(cps[0]);
      EncodedIsUtf8(cps[1..]);
      SeqLengthAgrees(e, e + EncodeAll(cps[1..]));
      assert (e + EncodeAll(cps[1..]))[|e|..] == EncodeAll(cps[1..]);
    }
  }
}
