/** The order of strings by their first difference, and sorted listings of names. */
module StringOrder {
  import opened Decimal

  predicate Less(a: string, b: string) {
    if b == "" then false
    else if a == "" then true
    else if a[0] != b[0] then a[0] < b[0]
    else Less(a[1..], b[1..])
  }

  lemma {:induction false} LessTotal(a: string, b: string)
    ensures Less(a, b) || Less(b, a) || a == b
    ensures !(Less(a, b) && Less(b, a)) && !Less(a, a)
  {
    if a != "" && b != "" && a[0] == b[0] {
      LessTotal(a[1..], b[1..]);
      assert a == [a[0]] + a[1..] && b == [b[0]] + b[1..];
    }
    if a != "" {
      LessTotal(a[1..], a[1..]);
    }
  }

  lemma {:induction false} LessTransitive(a: string, b: string, c: string)
    requires Less(a, b) && Less(b, c)
    ensures Less(a, c)
  {
    if a != "" && a[0] == b[0] && b[0] == c[0] {
      LessTransitive(a[1..], b[1..], c[1..]);
    }
  }

  /** A common-length prefix decides before the rest does. */
  lemma {:induction false} LessConcat(a: string, b: string, x: string, y: string)
    requires |a| == |b|
    ensures Less(a + x, b + y) <==> Less(a, b) || (a == b && Less(x, y))
  {
    if a == "" {
      assert a + x == x && b + y == y;
    } else {
      assert (a + x)[1..] == a[1..] + x && (b + y)[1..] == b[1..] + y;
      assert a == [a[0]] + a[1..] && b == [b[0]] + b[1..];
      LessConcat(a[1..], b[1..], x, y);
    }
  }

  // ---------------------------------------------------------------------
  // Numerals of equal width
  // ---------------------------------------------------------------------

  function Digit(c: char): int {
    c as int - '0' as int
  }

  lemma NumberLast(s: string)
    requires AllDigits(s) && s != ""
    ensures Number(s) == 10 * Number(s[..|s| - 1]) + (s[|s| - 1] as int - '0' as int)
  {
  }

  lemma TenTimes(d: int, n: nat)
    requires n > 0
    ensures 10 * (d * Pow10(n - 1)) == d * Pow10(n)
  {
  }

  lemma {:induction false} NumberHead(s: string)
    requires AllDigits(s) && s != ""
    ensures Number(s) == Digit(s[0]) * Pow10(|s| - 1) + Number(s[1..])
  {
    if |s| == 1 {
      assert s[..0] == "" && s[1..] == "";
    } else {
      hide Digit;
      var n := |s| - 1;
      var init := s[..n];
      NumberHead(init);
      assert s[1..][..n - 1] == init[1..] && s[1..][n - 1] == s[n];
      NumberLast(s);
      NumberLast(s[1..]);
      TenTimes(Digit(s[0]), n);
    }
  }

  lemma {:induction false} NumberBelow(s: string)
    requires AllDigits(s)
    ensures Number(s) < Pow10(|s|)
  {
    if s != "" {
      NumberBelow(s[..|s| - 1]);
    }
  }

  lemma HeadDecides(d: int, e: int, p: nat, x: nat, y: nat)
    requires d < e && x < p
    ensures d * p + x < e * p + y
  {
    assert (d + 1) * p <= e * p;
  }

  /** Of two numerals of the same width, the smaller number comes first. */
  lemma {:induction false} NumeralOrder(a: string, b: string)
    requires AllDigits(a) && AllDigits(b) && |a| == |b|
    ensures Less(a, b) <==> Number(a) < Number(b)
  {
    hide Number, Pow10;
    if a != "" {
      NumberHead(a);
      NumberHead(b);
      NumberBelow(a[1..]);
      NumberBelow(b[1..]);
      if a[0] < b[0] {
        HeadDecides(Digit(a[0]), Digit(b[0]), Pow10(|a| - 1), Number(a[1..]), Number(b[1..]));
      } else if b[0] < a[0] {
        HeadDecides(Digit(b[0]), Digit(a[0]), Pow10(|a| - 1), Number(b[1..]), Number(a[1..]));
      } else {
        NumeralOrder(a[1..], b[1..]);
      }
    }
  }

  lemma PadOrder(m: nat, n: nat, w: nat)
    requires w > 0 && m < Pow10(w) && n < Pow10(w)
    ensures Less(Pad(m, w), Pad(n, w)) <==> m < n
  {
    hide Pow10, Less, Pad;
    PadWidth(m, w);
    PadWidth(n, w);
    NumeralOrder(Pad(m, w), Pad(n, w));
    NumberOfPad(m, w);
    NumberOfPad(n, w);
  }

  // ---------------------------------------------------------------------
  // Sorted listings
  // ---------------------------------------------------------------------

  ghost predicate Ascending(s: seq<string>) {
    forall i, j :: 0 <= i < j < |s| ==> Less(s[i], s[j])
  }

  function InsertName(s: seq<string>, x: string): seq<string> {
    if s == [] || Less(x, s[0]) then [x] + s else [s[0]] + InsertName(s[1..], x)
  }

  lemma {:induction false} InsertAscends(s: seq<string>, x: string)
    requires Ascending(s) && x !in s
    ensures Ascending(InsertName(s, x))
    ensures forall y :: y in InsertName(s, x) <==> y == x || y in s
  {
    if s != [] {
      if Less(x, s[0]) {
        forall j | 0 < j < |s|
          ensures Less(x, s[j])
        {
          LessTransitive(x, s[0], s[j]);
        }
        assert forall y :: y in [x] + s <==> y == x || y in s;
      } else {
        LessTotal(x, s[0]);
        InsertAscends(s[1..], x);
        var rest := InsertName(s[1..], x);
        assert s == [s[0]] + s[1..];
        forall j | 0 <= j < |rest|
          ensures Less(s[0], rest[j])
        {
          assert rest[j] in rest;
        }
      }
    }
  }

  /** A listing is determined by the names in it. */
  lemma {:induction false} AscendingUnique(s: seq<string>, t: seq<string>)
    requires Ascending(s) && Ascending(t)
    requires forall y :: y in s <==> y in t
    ensures s == t
    decreases |s|
  {
    SameEmptiness(s, t);
    if s != [] {
      FirstIsLeast(s, t);
      FirstIsLeast(t, s);
      LessTotal(s[0], t[0]);
      forall y
        ensures y in s[1..] <==> y in t[1..]
      {
        TailWithout(s, y);
        TailWithout(t, y);
      }
      AscendingUnique(s[1..], t[1..]);
      assert s == [s[0]] + s[1..] && t == [t[0]] + t[1..];
    }
  }

  lemma SameEmptiness(s: seq<string>, t: seq<string>)
    requires forall y :: y in s <==> y in t
    ensures s == [] <==> t == []
  {
    if s != [] {
      assert s[0] in s;
    }
    if t != [] {
      assert t[0] in t;
    }
  }

  lemma FirstIsLeast(s: seq<string>, t: seq<string>)
    requires Ascending(s) && s != [] && t != [] && t[0] in s
    ensures s[0] == t[0] || Less(s[0], t[0])
  {
    var i :| 0 <= i < |s| && s[i] == t[0];
  }

  lemma TailWithout(s: seq<string>, y: string)
    requires Ascending(s) && s != []
    ensures y in s[1..] <==> y in s && y != s[0]
  {
    assert s == [s[0]] + s[1..];
    LessTotal(s[0], s[0]);
    if y in s[1..] {
      var i :| 0 <= i < |s| - 1 && s[1..][i] == y;
      assert s[i + 1] == y && Less(s[0], y);
    }
  }

  /** The last name is the greatest. */
  lemma AppendAscends(s: seq<string>, x: string)
    requires Ascending(s) && forall i :: 0 <= i < |s| ==> Less(s[i], x)
    ensures Ascending(s + [x])
  {
  }
}
