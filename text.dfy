/**
  Python `str` behaviour the vault relies on: the ordering used by `sorted` and by
  `<` on timestamps (code point by code point), `str.lower()` restricted to ASCII,
  the substring test `sub in s`, and `sorted(...)` applied to a set of names.
 */
module Text {

  // ---------------------------------------------------------------------------
  // Ordering: Python compares strings lexicographically by code point.
  // ---------------------------------------------------------------------------

  /** Python's `a <= b` on `str`. */
  predicate LessEq(a: string, b: string)
    decreases |a|
  {
    |a| == 0 || (|b| > 0 && (a[0] < b[0] || (a[0] == b[0] && LessEq(a[1..], b[1..]))))
  }

  /** Python's `a < b` on `str`. */
  predicate Less(a: string, b: string)
  {
    LessEq(a, b) && a != b
  }

  lemma {:induction false} LessEqReflexive(a: string)
    ensures LessEq(a, a)
  {
    if |a| > 0 {
      LessEqReflexive(a[1..]);
    }
  }

  lemma {:induction false} LessEqAntisymmetric(a: string, b: string)
    requires LessEq(a, b) && LessEq(b, a)
    ensures a == b
  {
    if |a| > 0 {
      LessEqAntisymmetric(a[1..], b[1..]);
      assert a == [a[0]] + a[1..];
      assert b == [b[0]] + b[1..];
    }
  }

  lemma {:induction false} LessEqTransitive(a: string, b: string, c: string)
    requires LessEq(a, b) && LessEq(b, c)
    ensures LessEq(a, c)
  {
    if |a| > 0 && a[0] == b[0] && b[0] == c[0] {
      LessEqTransitive(a[1..], b[1..], c[1..]);
    }
  }

  lemma {:induction false} LessEqTotal(a: string, b: string)
    ensures LessEq(a, b) || LessEq(b, a)
  {
    if |a| > 0 && |b| > 0 && a[0] == b[0] {
      LessEqTotal(a[1..], b[1..]);
    }
  }

  /** `<` on strings is a strict total order: exactly one of `a < b`, `a == b`, `b < a` holds. */
  lemma LessTrichotomy(a: string, b: string)
    ensures Less(a, b) || a == b || Less(b, a)
    ensures !(Less(a, b) && Less(b, a))
  {
    LessEqTotal(a, b);
    if LessEq(a, b) && LessEq(b, a) {
      LessEqAntisymmetric(a, b);
    }
  }

  // ---------------------------------------------------------------------------
  // sorted(): the ascending listing of a set of distinct names.
  // ---------------------------------------------------------------------------

  /** Every pair of positions is in strictly ascending order (so there are no duplicates). */
  predicate StrictlySorted(s: seq<string>)
  {
    forall i, j :: 0 <= i < j < |s| ==> Less(s[i], s[j])
  }

  predicate IsLeast(m: string, s: set<string>)
  {
    m in s && forall x :: x in s ==> LessEq(m, x)
  }

  lemma {:induction false} LeastExists(s: set<string>)
    requires s != {}
    ensures exists m :: IsLeast(m, s)
    decreases |s|
  {
    var y :| y in s;
    if s == {y} {
      LessEqReflexive(y);
      assert IsLeast(y, s);
    } else {
      var rest := s - {y};
      LeastExists(rest);
      var m :| IsLeast(m, rest);
      LessEqTotal(m, y);
      if LessEq(m, y) {
        assert IsLeast(m, s);
      } else {
        forall x | x in s
          ensures LessEq(y, x)
        {
          if x == y {
            LessEqReflexive(y);
          } else {
            LessEqTransitive(y, m, x);
          }
        }
        assert IsLeast(y, s);
      }
    }
  }

  lemma LeastUnique()
    ensures forall m, m', s :: IsLeast(m, s) && IsLeast(m', s) ==> m == m'
  {
    forall m, m', s | IsLeast(m, s) && IsLeast(m', s)
      ensures m == m'
    {
      LessEqAntisymmetric(m, m');
    }
  }

  /** The smallest name of a non-empty set. */
  function Least(s: set<string>): (m: string)
    requires s != {}
    ensures IsLeast(m, s)
  {
    LeastExists(s);
    LeastUnique();
    var m :| IsLeast(m, s); m
  }

  /** Python's `sorted(s)` for a set of names: ascending, each name exactly once. */
  function SortedKeys(s: set<string>): (r: seq<string>)
    ensures StrictlySorted(r)
    ensures forall x :: x in r <==> x in s
    ensures |r| == |s|
    decreases |s|
  {
    if s == {} then []
    else
      var m := Least(s);
      var rest := SortedKeys(s - {m});
      assert forall j :: 0 <= j < |rest| ==> rest[j] in s - {m};
      assert forall j :: 0 <= j < |rest| ==> Less(m, rest[j]);
      [m] + rest
  }

  /** In a strictly ascending sequence the last element does not occur earlier. */
  lemma SortedLastIsNew(s: seq<string>)
    requires StrictlySorted(s) && s != []
    ensures s[|s| - 1] !in s[..|s| - 1]
  {
  }

  lemma HeadIsElement(s: seq<string>)
    requires s != []
    ensures s[0] in s
  {
  }

  /** A strictly ascending sequence is determined by its elements: `SortedKeys` is the only listing. */
  lemma {:induction false} SortedUnique(a: seq<string>, b: seq<string>)
    requires StrictlySorted(a) && StrictlySorted(b)
    requires forall x :: x in a <==> x in b
    ensures a == b
  {
    if a == [] {
      if b != [] {
        HeadIsElement(b);
        assert false;
      }
    } else {
      assert b != [] by { assert a[0] in b; }
      if a[0] != b[0] {
        assert a[0] in b;
        var i :| 0 <= i < |b| && b[i] == a[0];
        assert Less(b[0], a[0]);
        assert b[0] in b;
        var j :| 0 <= j < |a| && a[j] == b[0];
        assert Less(a[0], b[0]);
        LessTrichotomy(a[0], b[0]);
        assert false;
      }
      forall x
        ensures x in a[1..] <==> x in b[1..]
      {
        if x in a[1..] {
          var i :| 1 <= i < |a| && a[i] == x;
          assert Less(a[0], a[i]);
          assert x in a;
          var k :| 0 <= k < |b| && b[k] == x;
          assert k != 0;
          assert b[1..][k - 1] == x;
        }
        if x in b[1..] {
          var i :| 1 <= i < |b| && b[i] == x;
          assert Less(b[0], b[i]);
          assert x in b;
          var k :| 0 <= k < |a| && a[k] == x;
          assert k != 0;
          assert a[1..][k - 1] == x;
        }
      }
      SortedUnique(a[1..], b[1..]);
      assert a == [a[0]] + a[1..];
      assert b == [b[0]] + b[1..];
    }
  }

  // ---------------------------------------------------------------------------
  // str.lower() on ASCII letters, and the substring test `sub in s`.
  // ---------------------------------------------------------------------------

  function LowerChar(c: char): char
  {
    if 'A' <= c <= 'Z' then (c as int + 32) as char else c
  }

  function UpperChar(c: char): char
  {
    if 'a' <= c <= 'z' then (c as int - 32) as char else c
  }

  /** `s.lower()`, folding only the letters A-Z. */
  function Lower(s: string): (r: string)
    ensures |r| == |s|
    ensures forall i :: 0 <= i < |s| ==> r[i] == LowerChar(s[i])
  {
    seq(|s|, i requires 0 <= i < |s| => LowerChar(s[i]))
  }

  /** `s.upper()`, folding only the letters a-z. */
  function Upper(s: string): (r: string)
    ensures |r| == |s|
    ensures forall i :: 0 <= i < |s| ==> r[i] == UpperChar(s[i])
  {
    seq(|s|, i requires 0 <= i < |s| => UpperChar(s[i]))
  }

  /** Lower-casing forgets whether a letter was written in upper or lower case. */
  lemma LowerOfUpper(s: string)
    ensures Lower(Upper(s)) == Lower(s)
  {
  }

  /** Python's `sub in s` for strings. */
  predicate IsSubstring(sub: string, s: string)
    decreases |s|
  {
    sub <= s || (|s| > 0 && IsSubstring(sub, s[1..]))
  }

  /** `sub` occurs in `s` starting at offset `i`. */
  predicate OccursAt(sub: string, s: string, i: int)
  {
    0 <= i <= |s| - |sub| && s[i..i + |sub|] == sub
  }

  /** `sub in s` holds exactly when `sub` occurs at some offset of `s`. */
  lemma {:induction false} IsSubstringIffOccurs(sub: string, s: string)
    ensures IsSubstring(sub, s) <==> exists i :: OccursAt(sub, s, i)
    decreases |s|
  {
    if sub <= s {
      assert OccursAt(sub, s, 0);
    } else if |s| > 0 {
      IsSubstringIffOccurs(sub, s[1..]);
      if exists i :: OccursAt(sub, s, i) {
        var i :| OccursAt(sub, s, i);
        assert i != 0;
        assert s[1..][i - 1..i - 1 + |sub|] == s[i..i + |sub|];
        assert OccursAt(sub, s[1..], i - 1);
      }
      if IsSubstring(sub, s[1..]) {
        var i :| OccursAt(sub, s[1..], i);
        assert s[1..][i..i + |sub|] == s[i + 1..i + 1 + |sub|];
        assert OccursAt(sub, s, i + 1);
      }
    }
  }
}
