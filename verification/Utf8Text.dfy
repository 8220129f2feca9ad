/**
 What `String::from_utf8` accepts (section 3 of RFC 3629): exactly the byte sequences that encode
 Unicode scalar values one after the other, each in its shortest form.
 */
module Utf8Text {
  import opened Basics
  import opened Frames

  /** Every code point but the surrogates. */
  predicate IsScalar(c: nat) { c <= 0x10FFFF && !(0xD800 <= c <= 0xDFFF) }

  predicate AllScalars(cs: seq<nat>) { forall c | c in cs :: IsScalar(c) }

  /** The bits of a scalar value in one to four bytes, six in each trailing byte. */
  function EncodeScalar(c: nat): (s: seq<byte>)
    requires IsScalar(c)
    ensures 1 <= |s| <= 4
  {
    if c < 0x80 then [c]
    else if c < 0x800 then [0xC0 + c / 64, 0x80 + c % 64]
    else if c < 0x10000 then [0xE0 + c / 4096, 0x80 + c / 64 % 64, 0x80 + c % 64]
    else [0xF0 + c / 262144, 0x80 + c / 4096 % 64, 0x80 + c / 64 % 64, 0x80 + c % 64]
  }

  function EncodeScalars(cs: seq<nat>): seq<byte>
    requires AllScalars(cs)
    decreases |cs|
  {
    if cs == [] then [] else assert IsScalar(cs[0]); EncodeScalar(cs[0]) + EncodeScalars(cs[1..])
  }

  /** One encoded character in front changes nothing. */
  lemma ValidAfterScalar(c: nat, rest: seq<byte>)
    requires IsScalar(c)
    ensures ValidUtf8(EncodeScalar(c) + rest) <==> ValidUtf8(rest)
  {
    var e := EncodeScalar(c);
    var s := e + rest;
    assert s[|e|..] == rest;
    assert forall i :: 0 <= i < |e| ==> s[i] == e[i];
    if c < 0x80 {
    } else if c < 0x800 {
      assert 0xC2 <= s[0] <= 0xDF && Trailing(s[1]);
    } else if c < 0x10000 {
      ThreeBytes(c);
    } else {
      FourBytes(c);
    }
  }

  lemma ThreeBytes(c: nat)
    requires IsScalar(c) && 0x800 <= c < 0x10000
    ensures var e := EncodeScalar(c);
      && |e| == 3 && 0xE0 <= e[0] <= 0xEF && Trailing(e[1]) && Trailing(e[2])
      && (e[0] == 0xE0 ==> 0xA0 <= e[1]) && (e[0] == 0xED ==> e[1] <= 0x9F)
  {
  }

  lemma FourBytes(c: nat)
    requires IsScalar(c) && 0x10000 <= c
    ensures var e := EncodeScalar(c);
      && |e| == 4 && 0xF0 <= e[0] <= 0xF4 && Trailing(e[1]) && Trailing(e[2]) && Trailing(e[3])
      && (e[0] == 0xF0 ==> 0x90 <= e[1]) && (e[0] == 0xF4 ==> e[1] <= 0x8F)
  {
  }

  /** The first character of a valid sequence. */
  lemma FirstScalar(s: seq<byte>) returns (c: nat)
    requires s != [] && ValidUtf8(s)
    ensures IsScalar(c) && |EncodeScalar(c)| <= |s|
    ensures s == EncodeScalar(c) + s[|EncodeScalar(c)|..] && ValidUtf8(s[|EncodeScalar(c)|..])
  {
    hide ValidUtf8;
    var a: int := s[0];
    Unfold(s);
    if a < 0x80 {
      c := a;
    } else if a < 0xE0 {
      c := (a - 0xC0) * 64 + (s[1] - 0x80);
      assert EncodeScalar(c) == [s[0], s[1]];
      assert s == [s[0], s[1]] + s[2..];
    } else if a < 0xF0 {
      c := DecodeThree(s[0], s[1], s[2]);
      assert s == [s[0], s[1], s[2]] + s[3..];
    } else {
      c := DecodeFour(s[0], s[1], s[2], s[3]);
      assert s == [s[0], s[1], s[2], s[3]] + s[4..];
    }
  }

  /** The cases of a valid sequence. */
  lemma Unfold(s: seq<byte>)
    requires s != [] && ValidUtf8(s)
    ensures
      || (s[0] < 0x80 && ValidUtf8(s[1..]))
      || (0xC2 <= s[0] <= 0xDF && |s| >= 2 && Trailing(s[1]) && ValidUtf8(s[2..]))
      || (|s| >= 3 && WellThree(s[0], s[1], s[2]) && ValidUtf8(s[3..]))
      || (|s| >= 4 && WellFour(s[0], s[1], s[2], s[3]) && ValidUtf8(s[4..]))
  {
  }

  predicate WellThree(a: byte, b: byte, c: byte) {
    && 0xE0 <= a <= 0xEF && Trailing(b) && Trailing(c)
    && (a == 0xE0 ==> 0xA0 <= b) && (a == 0xED ==> b <= 0x9F)
  }

  predicate WellFour(a: byte, b: byte, c: byte, d: byte) {
    && 0xF0 <= a <= 0xF4 && Trailing(b) && Trailing(c) && Trailing(d)
    && (a == 0xF0 ==> 0x90 <= b) && (a == 0xF4 ==> b <= 0x8F)
  }

  lemma DecodeThree(a: byte, b: byte, c: byte) returns (n: nat)
    requires WellThree(a, b, c)
    ensures IsScalar(n) && EncodeScalar(n) == [a, b, c]
  {
    n := (a - 0xE0) * 4096 + (b - 0x80) * 64 + (c - 0x80);
    assert n / 64 == (a - 0xE0) * 64 + (b - 0x80);
  }

  lemma DecodeFour(a: byte, b: byte, c: byte, d: byte) returns (n: nat)
    requires WellFour(a, b, c, d)
    ensures IsScalar(n) && EncodeScalar(n) == [a, b, c, d]
  {
    n := (a - 0xF0) * 262144 + (b - 0x80) * 4096 + (c - 0x80) * 64 + (d - 0x80);
    assert n / 64 == (a - 0xF0) * 4096 + (b - 0x80) * 64 + (c - 0x80);
    assert n / 4096 == (a - 0xF0) * 64 + (b - 0x80);
  }

  lemma {:induction false} EncodedIsValid(cs: seq<nat>)
    requires AllScalars(cs)
    ensures ValidUtf8(EncodeScalars(cs))
    decreases |cs|
  {
    hide EncodeScalar, ValidUtf8;
    if cs == [] {
      NothingIsValid();
    } else {
      assert IsScalar(cs[0]);
      EncodedIsValid(cs[1..]);
      ValidAfterScalar(cs[0], EncodeScalars(cs[1..]));
    }
  }

  lemma NothingIsValid()
    ensures ValidUtf8([])
  {
  }

  lemma {:induction false} Decode(s: seq<byte>) returns (cs: seq<nat>)
    requires ValidUtf8(s)
    ensures AllScalars(cs) && s == EncodeScalars(cs)
    decreases |s|
  {
    hide EncodeScalar, ValidUtf8;
    if s == [] {
      cs := [];
    } else {
      var c := FirstScalar(s);
      var more := Decode(s[|EncodeScalar(c)|..]);
      cs := [c] + more;
      assert cs[1..] == more;
    }
  }

  /** A byte sequence is a text exactly if it encodes some characters. */
  lemma ValidMeansEncoded(s: seq<byte>)
    ensures ValidUtf8(s) <==> exists cs: seq<nat> :: AllScalars(cs) && s == EncodeScalars(cs)
  {
    hide ValidUtf8, EncodeScalars;
    if ValidUtf8(s) {
      var cs := Decode(s);
    }
    forall cs: seq<nat> | AllScalars(cs) && s == EncodeScalars(cs) ensures ValidUtf8(s) {
      EncodedIsValid(cs);
    }
  }
}
