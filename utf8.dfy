/**
 * How many `char`s `new String(bytes)` yields, with UTF-8 as the default
 * charset (the default from Java 18 on). The decoder reads the bytes form by
 * form, as laid out in Table 3-7 of section 3.9 of the Unicode Standard:
 * a well-formed form of one to three bytes yields one UTF-16 unit, one of
 * four bytes yields a surrogate pair, and an ill-formed stretch yields one
 * U+FFFD for its longest prefix that could still begin a well-formed form
 * (one byte when the lead byte opens no form at all). Java accepts any
 * continuation byte after ED and replaces the whole encoded surrogate by one
 * U+FFFD, so for counting ED is read like E1..EC.
 */
module Utf8 {
  import opened Java

  /** How many bytes the form opened by the unsigned lead byte `lead` takes: 1 for a byte that opens no multi-byte form. */
  function FormLength(lead: nat): (n: nat)
    ensures 1 <= n <= 4
    ensures n == 1 <==> lead < 0xC2 || 0xF4 < lead
  {
    if 0xC2 <= lead <= 0xDF then 2
    else if 0xE0 <= lead <= 0xEF then 3
    else if 0xF0 <= lead <= 0xF4 then 4
    else 1
  }

  predicate Continuation(u: nat)
  {
    0x80 <= u <= 0xBF
  }

  /** Whether the unsigned byte `u` may follow the lead byte `lead` in a well-formed form. */
  predicate SecondFits(lead: nat, u: nat)
  {
    if lead == 0xE0 then 0xA0 <= u <= 0xBF
    else if lead == 0xF0 then 0x90 <= u <= 0xBF
    else if lead == 0xF4 then 0x80 <= u <= 0x8F
    else Continuation(u)
  }

  /** Whether `b1` opens a multi-byte form that `b2` continues. */
  predicate Opens(b1: JByte, b2: JByte)
  {
    FormLength(Unsigned(b1)) > 1 && SecondFits(Unsigned(b1), Unsigned(b2))
  }

  /** How many bytes after `s[0]` continue the form it opens, short of its end or of the input's. */
  function Matched(s: Bytes): (k: nat)
    requires s != []
    ensures k < FormLength(Unsigned(s[0])) && k < |s|
    ensures k > 0 <==> |s| > 1 && Opens(s[0], s[1])
  {
    var lead := Unsigned(s[0]);
    var n := FormLength(lead);
    if n == 1 || |s| < 2 || !SecondFits(lead, Unsigned(s[1])) then 0
    else if n == 2 || |s| < 3 || !Continuation(Unsigned(s[2])) then 1
    else if n == 3 || |s| < 4 || !Continuation(Unsigned(s[3])) then 2
    else 3
  }

  /**
   * The number of UTF-16 units decoded from `s`. Each step takes the lead
   * byte and the bytes that continue it; only a whole four-byte form
   * yields two units, everything else one.
   */
  function DecodedLength(s: Bytes): (n: nat)
    ensures n <= |s|
    decreases |s|
  {
    if s == [] then 0
    else
      var k := Matched(s);
      (if k == 3 then 2 else 1) + DecodedLength(s[k + 1..])
  }

  /** Whether no byte of `s` opens a multi-byte form that the next byte continues. */
  predicate OneForOne(s: Bytes)
  {
    forall i :: 0 <= i < |s| - 1 ==> !Opens(s[i], s[i + 1])
  }

  /**
   * Decoding gives one `char` per byte exactly when no byte opens a form
   * that the next byte continues; otherwise the string is shorter than
   * the array.
   */
  lemma {:induction false} DecodedLengthOneForOne(s: Bytes)
    ensures DecodedLength(s) == |s| <==> OneForOne(s)
    decreases |s|
  {
    if s != [] {
      var k := Matched(s);
      if k == 0 {
        DecodedLengthOneForOne(s[1..]);
        if OneForOne(s[1..]) {
          forall i | 0 <= i < |s| - 1
            ensures !Opens(s[i], s[i + 1])
          {
            if i > 0 {
              assert s[i] == s[1..][i - 1] && s[i + 1] == s[1..][i];
            }
          }
        }
        if OneForOne(s) {
          forall i | 0 <= i < |s[1..]| - 1
            ensures !Opens(s[1..][i], s[1..][i + 1])
          {
            assert s[1..][i] == s[i + 1] && s[1..][i + 1] == s[i + 2];
          }
        }
      } else {
        assert Opens(s[0], s[1]);
      }
    }
  }

  /** Bytes that open no multi-byte form (ASCII among them) each decode to one `char` and never join what follows. */
  lemma {:induction false} SinglesDecodeOneForOne(a: Bytes, b: Bytes)
    requires forall i :: 0 <= i < |a| ==> FormLength(Unsigned(a[i])) == 1
    ensures DecodedLength(a + b) == |a| + DecodedLength(b)
    decreases |a|
  {
    if a != [] {
      assert (a + b)[0] == a[0];
      assert Matched(a + b) == 0;
      assert (a + b)[1..] == a[1..] + b;
      assert DecodedLength(a + b) == 1 + DecodedLength(a[1..] + b);
      SinglesDecodeOneForOne(a[1..], b);
    } else {
      assert a + b == b;
    }
  }

  /** An array of ASCII bytes decodes to as many `char`s as it has bytes. */
  lemma AsciiOneForOne(s: Bytes)
    requires forall i :: 0 <= i < |s| ==> s[i] >= 0
    ensures DecodedLength(s) == |s|
  {
    SinglesDecodeOneForOne(s, []);
    assert s + [] == s;
  }

  /** A START_TEXT frame carrying "é" (C3 A9): six bytes decode to five `char`s. */
  lemma EAcuteFrameShortens()
    ensures DecodedLength([0, 2, 1, 2, -61, -87]) == 5
  {
    var body: Bytes := [-61, -87];
    assert Matched(body) == 1 && body[2..] == [];
    SinglesDecodeOneForOne([0, 2, 1, 2], body);
    assert [0, 2, 1, 2] + body == [0, 2, 1, 2, -61, -87];
  }

  /** A four-byte form is a surrogate pair; an encoded surrogate is one U+FFFD for three bytes. */
  lemma WideAndSurrogateForms()
    ensures DecodedLength([-16, -97, -104, -128]) == 2
    ensures DecodedLength([-19, -96, -128]) == 1
  {
    var four: Bytes := [-16, -97, -104, -128];
    assert Matched(four) == 3 && four[4..] == [];
    var surrogate: Bytes := [-19, -96, -128];
    assert Matched(surrogate) == 2 && surrogate[3..] == [];
  }

  /** Lone continuation bytes, and an overlong E0 80 80, give one U+FFFD per byte. */
  lemma IllFormedBytesOneEach()
    ensures DecodedLength([-128, -65]) == 2
    ensures DecodedLength([-32, -128, -128]) == 3
  {
    var lone: Bytes := [-128, -65];
    assert Matched(lone) == 0 && lone[1..] == [-65];
    var overlong: Bytes := [-32, -128, -128];
    assert Matched(overlong) == 0 && overlong[1..] == [-128, -128];
    assert Matched(overlong[1..]) == 0 && overlong[1..][1..] == [-128];
  }
}
