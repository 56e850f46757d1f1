/**
 Bytes, C strings and decimal text as the C sources build and read them:
 strlen/strcat stop at the first NUL, sprintf("%0wd") pads on the left with
 zeros, and atoi reads a run of leading digits.
 */
module Bytes {

  type byte = x: int | 0 <= x < 256

  /** A MAC address. */
  type Addr = a: seq<byte> | |a| == 6 witness [0, 0, 0, 0, 0, 0]

  datatype Option<+T> = None | Some(value: T)

  function Flatten<T>(xs: seq<seq<T>>): seq<T> {
    if xs == [] then [] else xs[0] + Flatten(xs[1..])
  }

  lemma {:induction false} FlattenAppend<T>(xs: seq<seq<T>>, ys: seq<seq<T>>)
    ensures Flatten(xs + ys) == Flatten(xs) + Flatten(ys)
  {
    if xs == [] {
      assert xs + ys == ys;
    } else {
      assert (xs + ys)[1..] == xs[1..] + ys;
      FlattenAppend(xs[1..], ys);
    }
  }

  lemma FlattenSnoc<T>(xs: seq<seq<T>>, y: seq<T>)
    ensures Flatten(xs + [y]) == Flatten(xs) + y
  {
    FlattenAppend(xs, [y]);
    assert Flatten([y]) == y + Flatten([y][1..]);
  }

  predicate NulFree(s: seq<byte>) {
    forall i :: 0 <= i < |s| ==> s[i] != 0
  }

  /** The C string held in a buffer: everything before the first NUL. */
  function CString(s: seq<byte>): (r: seq<byte>)
    ensures NulFree(s) ==> r == s
  {
    if s == [] || s[0] == 0 then [] else [s[0]] + CString(s[1..])
  }

  /** Bytes behind the first NUL do not matter. */
  lemma {:induction false} CStringCuts(s: seq<byte>, rest: seq<byte>)
    requires NulFree(s)
    ensures CString(s + [0] + rest) == s
  {
    if s != [] {
      assert (s + [0] + rest)[1..] == s[1..] + [0] + rest;
      CStringCuts(s[1..], rest);
    }
  }

  predicate IsDigit(c: byte) {
    48 <= c < 58
  }

  predicate AllDigits(s: seq<byte>) {
    forall i :: 0 <= i < |s| ==> IsDigit(s[i])
  }

  /** Decimal text of n, as sprintf("%d") prints a non-negative int. */
  function Digits(n: nat): (r: seq<byte>)
    ensures r != [] && AllDigits(r)
  {
    if n < 10 then [48 + n] else Digits(n / 10) + [48 + n % 10]
  }

  /** Decimal text of n padded with zeros to at least w characters, as sprintf("%0wd"). */
  function Padded(n: nat, w: nat): (r: seq<byte>)
    ensures AllDigits(r)
  {
    var d := Digits(n);
    if |d| >= w then d else seq(w - |d|, _ => 48) + d
  }

  function AtoiFrom(acc: nat, s: seq<byte>): nat
    decreases s
  {
    if s == [] || !IsDigit(s[0]) then acc else AtoiFrom(acc * 10 + (s[0] - 48), s[1..])
  }

  function Atoi(s: seq<byte>): nat {
    AtoiFrom(0, s)
  }

  function Pow10(w: nat): nat {
    if w == 0 then 1 else 10 * Pow10(w - 1)
  }

  lemma {:induction false} AtoiSnoc(acc: nat, s: seq<byte>, c: byte)
    requires AllDigits(s) && IsDigit(c)
    ensures AtoiFrom(acc, s + [c]) == AtoiFrom(acc, s) * 10 + (c - 48)
    decreases s
  {
    if s == [] {
      assert s + [c] == [c];
      assert [c][1..] == [];
    } else {
      assert (s + [c])[1..] == s[1..] + [c];
      AtoiSnoc(acc * 10 + (s[0] - 48), s[1..], c);
    }
  }

  lemma {:induction false} AtoiOfDigits(n: nat)
    ensures Atoi(Digits(n)) == n
  {
    if n < 10 {
      assert Digits(n)[1..] == [];
      assert AtoiFrom(n, []) == n;
    } else {
      AtoiOfDigits(n / 10);
      AtoiSnoc(0, Digits(n / 10), 48 + n % 10);
    }
  }

  lemma {:induction false} AtoiSkipsZeros(k: nat, s: seq<byte>)
    ensures Atoi(seq(k, _ => 48 as byte) + s) == Atoi(s)
  {
    var z := seq(k, _ => 48 as byte);
    if k == 0 {
      assert z + s == s;
    } else {
      assert (z + s)[1..] == seq(k - 1, _ => 48 as byte) + s;
      AtoiSkipsZeros(k - 1, s);
    }
  }

  /** Behind more digits, the number read so far moves up by their places. */
  lemma {:induction false} AtoiAppend(a: seq<byte>, b: seq<byte>)
    requires AllDigits(a) && AllDigits(b)
    ensures Atoi(a + b) == Atoi(a) * Pow10(|b|) + Atoi(b)
    decreases |b|
  {
    if b == [] {
      assert a + b == a;
    } else {
      var n := |b| - 1;
      assert a + b == (a + b[..n]) + [b[n]] && b == b[..n] + [b[n]];
      AtoiAppend(a, b[..n]);
      AtoiSnoc(0, a + b[..n], b[n]);
      AtoiSnoc(0, b[..n], b[n]);
      assert Atoi(a) * Pow10(n) * 10 == Atoi(a) * Pow10(n + 1);
    }
  }

  /** Padded text reads back as the number it was printed from. */
  lemma AtoiOfPadded(n: nat, w: nat)
    ensures Atoi(Padded(n, w)) == n
  {
    AtoiOfDigits(n);
    var d := Digits(n);
    if |d| < w {
      AtoiSkipsZeros(w - |d|, d);
    }
  }

  lemma {:induction false} DigitsWidth(n: nat, w: nat)
    requires w > 0 && n < Pow10(w)
    ensures |Digits(n)| <= w
  {
    if n >= 10 {
      assert w > 1;
      DigitsWidth(n / 10, w - 1);
    }
  }

  /** A number that fits in w digits is printed in exactly w characters. */
  lemma PaddedWidth(n: nat, w: nat)
    requires w > 0 && n < Pow10(w)
    ensures |Padded(n, w)| == w
  {
    DigitsWidth(n, w);
  }

  lemma {:induction false} AtoiBound(acc: nat, s: seq<byte>, w: nat)
    requires |s| <= w
    ensures AtoiFrom(acc, s) < (acc + 1) * Pow10(w)
    decreases s
  {
    if s == [] || !IsDigit(s[0]) {
      Pow10Positive(w);
      ScaleBound(10, 1, Pow10(w));
    } else {
      var next := acc * 10 + (s[0] - 48);
      AtoiBound(next, s[1..], w - 1);
      ScaleBound(next + 1, acc + 1, Pow10(w - 1));
    }
  }

  lemma ScaleBound(a: nat, b: nat, k: nat)
    requires a <= b * 10
    ensures a * k <= b * (10 * k)
    ensures k >= 1 ==> forall x: nat :: x <= x * k
  {
    assert b * (10 * k) - a * k == (b * 10 - a) * k;
    forall x: nat | k >= 1 ensures x <= x * k {
      assert x * k - x == x * (k - 1);
    }
  }

  lemma {:induction false} Pow10Positive(w: nat)
    ensures Pow10(w) >= 1
  {
    if w > 0 { Pow10Positive(w - 1); }
  }
}
