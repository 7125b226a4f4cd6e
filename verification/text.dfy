/**
 String operations the urest code borrows from Python's `str`: `upper()`, the
 substring test `t in s`, the decimal rendering of a length inside an
 f-string, and the UTF-8 `encode()` applied to every line written to a client.
 */
module Text {

  type byte = b: int | 0 <= b < 256

  // ---------------------------------------------------------------------------
  // Case mapping
  // ---------------------------------------------------------------------------

  predicate IsAsciiLower(c: char) { 'a' <= c <= 'z' }

  /** `c.upper()` for one character, over the ASCII letters. */
  function UpperChar(c: char): char
  {
    if IsAsciiLower(c) then (c as int - 32) as char else c
  }

  /** `s.upper()`, over the ASCII letters; it never changes the length. */
  function Upper(s: string): (u: string)
    ensures |u| == |s|
  {
    seq(|s|, i requires 0 <= i < |s| => UpperChar(s[i]))
  }

  /** Upper-casing commutes with taking a prefix. */
  lemma UpperPrefix(s: string, k: nat)
    requires k <= |s|
    ensures Upper(s[..k]) == Upper(s)[..k]
  {
    assert forall i :: 0 <= i < k ==> Upper(s[..k])[i] == Upper(s)[..k][i];
  }

  /** Upper-casing twice is upper-casing once. */
  lemma UpperIdempotent(s: string)
    ensures Upper(Upper(s)) == Upper(s)
  {
    assert forall i :: 0 <= i < |s| ==> Upper(Upper(s))[i] == Upper(s)[i];
  }

  /** The space is the only character upper-cased to a space. */
  lemma UpperCharSpace(c: char)
    ensures UpperChar(c) == ' ' <==> c == ' '
  {
  }

  // ---------------------------------------------------------------------------
  // Substring test
  // ---------------------------------------------------------------------------

  /** Python's `t in s` for two strings: `t` occurs as a contiguous run of `s`. */
  function Contains(s: string, t: string): (b: bool)
    ensures b ==> |t| <= |s|
    ensures t == [] ==> b
    decreases |s|
  {
    (|t| <= |s| && s[..|t|] == t) || (0 < |s| && Contains(s[1..], t))
  }

  /** `t` occurs in `s` starting at index `i`. */
  predicate OccursAt(s: string, t: string, i: int)
  {
    0 <= i && i + |t| <= |s| && s[i..i + |t|] == t
  }

  /** `Contains` agrees with the textbook definition of a substring occurrence. */
  lemma {:induction false} ContainsIffOccurs(s: string, t: string)
    ensures Contains(s, t) <==> exists i :: OccursAt(s, t, i)
  {
    if |t| <= |s| && s[..|t|] == t {
      assert OccursAt(s, t, 0);
    } else if 0 < |s| {
      ContainsIffOccurs(s[1..], t);
      if Contains(s[1..], t) {
        var i :| OccursAt(s[1..], t, i);
        assert s[i + 1..i + 1 + |t|] == s[1..][i..i + |t|];
        assert OccursAt(s, t, i + 1);
      }
      if exists i :: OccursAt(s, t, i) {
        var i :| OccursAt(s, t, i);
        assert i != 0;
        assert s[1..][i - 1..i - 1 + |t|] == s[i..i + |t|];
        assert OccursAt(s[1..], t, i - 1);
      }
    }
  }

  /** A string that lacks some character of `t` cannot contain `t`. */
  lemma {:induction false} MissingCharNotContained(s: string, t: string, k: nat)
    requires k < |t|
    requires forall i :: 0 <= i < |s| ==> s[i] != t[k]
    ensures !Contains(s, t)
  {
    if |t| <= |s| {
      assert s[..|t|][k] == s[k];
    }
    if 0 < |s| {
      MissingCharNotContained(s[1..], t, k);
    }
  }

  /** Every string contains itself. */
  lemma ContainsSelf(s: string)
    ensures Contains(s, s)
  {
  }

  // ---------------------------------------------------------------------------
  // Decimal numerals
  // ---------------------------------------------------------------------------

  predicate IsDigit(c: char) { '0' <= c <= '9' }

  predicate AllDigits(s: string) { forall i :: 0 <= i < |s| ==> IsDigit(s[i]) }

  function DigitChar(d: int): char
    requires 0 <= d < 10
  {
    ('0' as int + d) as char
  }

  /** Python's `str(n)` for a natural number, as an f-string renders `len(body)`. */
  function Decimal(n: nat): (s: string)
    ensures 1 <= |s|
    ensures AllDigits(s)
  {
    if n < 10 then [DigitChar(n)] else Decimal(n / 10) + [DigitChar(n % 10)]
  }

  /** The value of a run of decimal digits, as a reader of a header parses it. */
  function ParseDecimal(s: string): nat
    requires AllDigits(s)
  {
    if s == [] then 0
    else ParseDecimal(s[..|s| - 1]) * 10 + (s[|s| - 1] as int - '0' as int)
  }

  /** Parsing a rendered number gives the number back. */
  lemma {:induction false} DecimalRoundTrip(n: nat)
    ensures ParseDecimal(Decimal(n)) == n
  {
    if n >= 10 {
      DecimalRoundTrip(n / 10);
      var s := Decimal(n);
      assert s[..|s| - 1] == Decimal(n / 10);
    }
  }

  // ---------------------------------------------------------------------------
  // UTF-8
  // ---------------------------------------------------------------------------

  predicate IsAscii(s: string) { forall i :: 0 <= i < |s| ==> s[i] as int < 128 }

  /** The UTF-8 bytes of one Unicode scalar value. */
  function Utf8Char(c: char): (bs: seq<byte>)
    ensures 1 <= |bs| <= 4
    ensures |bs| == 1 <==> c as int < 128
  {
    var x := c as int;
    if x < 0x80 then [x]
    else if x < 0x800 then [0xC0 + x / 0x40, 0x80 + x % 0x40]
    else if x < 0x1_0000 then [0xE0 + x / 0x1000, 0x80 + (x / 0x40) % 0x40, 0x80 + x % 0x40]
    else [0xF0 + x / 0x4_0000, 0x80 + (x / 0x1000) % 0x40, 0x80 + (x / 0x40) % 0x40, 0x80 + x % 0x40]
  }

  /** Python's `s.encode()` (UTF-8). */
  function Encode(s: string): (e: seq<byte>)
    ensures |s| <= |e| <= 4 * |s|
  {
    if s == [] then [] else Utf8Char(s[0]) + Encode(s[1..])
  }

  /** Encoding a concatenation encodes the parts one after the other. */
  lemma {:induction false} EncodeAppend(a: string, b: string)
    ensures Encode(a + b) == Encode(a) + Encode(b)
  {
    if a != [] {
      assert (a + b)[1..] == a[1..] + b;
      EncodeAppend(a[1..], b);
    } else {
      assert a + b == b;
    }
  }

  /** The strings of `ls` one after the other. */
  function Concat(ls: seq<string>): string
  {
    if ls == [] then [] else ls[0] + Concat(ls[1..])
  }

  /** Concatenation distributes over appending lists of strings. */
  lemma {:induction false} ConcatAppend(a: seq<string>, b: seq<string>)
    ensures Concat(a + b) == Concat(a) + Concat(b)
  {
    if a != [] {
      assert (a + b)[1..] == a[1..] + b;
      ConcatAppend(a[1..], b);
    } else {
      assert a + b == b;
    }
  }

  lemma ConcatTwo(a: string, b: string)
    ensures Concat([a, b]) == a + b
  {
    assert [a, b][1..] == [b];
    assert Concat([b]) == b by {
      assert [b][1..] == [];
      assert b + [] == b;
    }
  }

  lemma ConcatThree(a: string, b: string, c: string)
    ensures Concat([a, b, c]) == a + b + c
  {
    assert [a, b, c][1..] == [b, c];
    ConcatTwo(b, c);
  }

  /** The concatenation of three strings, a list of strings, and two more strings. */
  lemma ConcatFive(a: string, b: string, c: string, ls: seq<string>, d: string, e: string)
    ensures Concat([a, b, c] + ls + [d, e]) == a + (b + (c + (Concat(ls) + (d + e))))
  {
    ConcatAppend([a, b, c] + ls, [d, e]);
    ConcatAppend([a, b, c], ls);
    ConcatThree(a, b, c);
    ConcatTwo(d, e);
  }

  /** The encodings of the strings of `ls` one after the other. */
  function EncodeAll(ls: seq<string>): seq<byte>
  {
    if ls == [] then [] else Encode(ls[0]) + EncodeAll(ls[1..])
  }

  /** Encoding string by string is encoding the concatenation. */
  lemma {:induction false} EncodeEach(ls: seq<string>)
    ensures EncodeAll(ls) == Encode(Concat(ls))
  {
    if ls != [] {
      EncodeEach(ls[1..]);
      EncodeAppend(ls[0], Concat(ls[1..]));
    }
  }

  /**
   A string takes at least one byte per character, and exactly one per
   character precisely when it is pure ASCII.
   */
  lemma {:induction false} EncodedLength(s: string)
    ensures |Encode(s)| >= |s|
    ensures |Encode(s)| == |s| <==> IsAscii(s)
  {
    if s != [] {
      EncodedLength(s[1..]);
      assert IsAscii(s) <==> s[0] as int < 128 && IsAscii(s[1..]) by {
        if s[0] as int < 128 && IsAscii(s[1..]) {
          forall i | 0 <= i < |s| ensures s[i] as int < 128 {
            if i > 0 { assert s[i] == s[1..][i - 1]; }
          }
        }
      }
    }
  }
}
