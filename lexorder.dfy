/**
  Python's ordering of strings (character by character, a proper prefix
  first), strictly increasing sequences of strings, and the
  de-duplicated sorted list `sorted(uniquifier(labels))`.
*/
module LexOrder {

  /**
    Reference reading of string order: s is a proper prefix of t, or at the
    first position where they differ s has the smaller character.
  */
  predicate FirstDifferenceLess(s: string, t: string) {
    || (|s| < |t| && s == t[..|s|])
    || exists k :: 0 <= k < |s| && k < |t| && s[..k] == t[..k] && s[k] < t[k]
  }

  lemma FirstDifferenceTail(s: string, t: string)
    requires s != [] && t != [] && s[0] == t[0]
    ensures FirstDifferenceLess(s, t) <==> FirstDifferenceLess(s[1..], t[1..])
  {
    var s', t' := s[1..], t[1..];
    if exists k :: 0 <= k < |s| && k < |t| && s[..k] == t[..k] && s[k] < t[k] {
      var k :| 0 <= k < |s| && k < |t| && s[..k] == t[..k] && s[k] < t[k];
      assert k > 0;
      assert s'[..k - 1] == s[1..k] == t[1..k] == t'[..k - 1];
      assert s'[k - 1] < t'[k - 1];
    }
    if exists k :: 0 <= k < |s'| && k < |t'| && s'[..k] == t'[..k] && s'[k] < t'[k] {
      var k :| 0 <= k < |s'| && k < |t'| && s'[..k] == t'[..k] && s'[k] < t'[k];
      assert s[..k + 1] == [s[0]] + s'[..k] && t[..k + 1] == [t[0]] + t'[..k];
      assert s[k + 1] < t[k + 1];
    }
    if |s| < |t| && s == t[..|s|] {
      assert s' == t'[..|s'|];
    }
    if |s'| < |t'| && s' == t'[..|s'|] {
      assert s == [s[0]] + s' && t[..|s|] == [t[0]] + t'[..|s'|];
    }
  }

  lemma FirstDifferenceHead(s: string, t: string)
    requires s != [] && t != []
    ensures FirstDifferenceLess(s, t) ==> s[0] <= t[0]
  {
    if |s| < |t| && s == t[..|s|] {
      assert s[0] == t[..|s|][0];
    }
    if exists k :: 0 <= k < |s| && k < |t| && s[..k] == t[..k] && s[k] < t[k] {
      var k :| 0 <= k < |s| && k < |t| && s[..k] == t[..k] && s[k] < t[k];
      if k > 0 {
        assert s[..k][0] == t[..k][0];
      }
    }
  }

  /** `s < t` on Python 2 byte strings: character by character, a proper prefix first. */
  predicate LexLess(s: string, t: string)
    ensures LexLess(s, t) <==> FirstDifferenceLess(s, t)
  {
    if s == [] then assert t != [] ==> s == t[..0]; t != []
    else if t == [] then false
    else if s[0] < t[0] then assert s[..0] == t[..0]; true
    else if s[0] == t[0] then FirstDifferenceTail(s, t); LexLess(s[1..], t[1..])
    else FirstDifferenceHead(s, t); false
  }

  lemma {:induction false} LexIrreflexive(s: string)
    ensures !LexLess(s, s)
  {
    if s != [] {
      LexIrreflexive(s[1..]);
    }
  }

  lemma {:induction false} LexTransitive(s: string, t: string, u: string)
    requires LexLess(s, t) && LexLess(t, u)
    ensures LexLess(s, u)
  {
    if s != [] && s[0] == t[0] && t[0] == u[0] {
      LexTransitive(s[1..], t[1..], u[1..]);
    }
  }

  /** Any two different strings are ordered one way or the other. */
  lemma {:induction false} LexTotal(s: string, t: string)
    requires s != t
    ensures LexLess(s, t) || LexLess(t, s)
  {
    if s != [] && t != [] && s[0] == t[0] {
      assert s == [s[0]] + s[1..] && t == [t[0]] + t[1..];
      LexTotal(s[1..], t[1..]);
    }
  }

  lemma LexAsymmetric(s: string, t: string)
    requires LexLess(s, t)
    ensures !LexLess(t, s)
  {
    if LexLess(t, s) {
      LexTransitive(s, t, s);
      LexIrreflexive(s);
    }
  }

  /** Strictly increasing under string order. */
  predicate StrictlySorted(r: seq<string>) {
    forall i, j :: 0 <= i < j < |r| ==> LexLess(r[i], r[j])
  }

  function Elements(r: seq<string>): set<string> {
    set x | x in r
  }

  /** A strictly sorted sequence has no duplicates. */
  lemma StrictlySortedDistinct(r: seq<string>, i: nat, j: nat)
    requires StrictlySorted(r) && i < |r| && j < |r| && i != j
    ensures r[i] != r[j]
  {
    if i < j {
      LexIrreflexive(r[i]);
    } else {
      LexIrreflexive(r[j]);
    }
  }

  lemma HeadIsElement(r: seq<string>)
    requires r != []
    ensures r[0] in Elements(r)
  {
  }

  lemma BelowHead(x: string, r: seq<string>)
    requires StrictlySorted(r) && r != [] && LexLess(x, r[0])
    ensures StrictlySorted([x] + r)
  {
    forall j | 0 < j < |r|
      ensures LexLess(x, r[j])
    {
      LexTransitive(x, r[0], r[j]);
    }
  }

  /** Adds x to a strictly sorted list, keeping it strictly sorted. */
  function Insert(x: string, r: seq<string>): (q: seq<string>)
    requires StrictlySorted(r)
    ensures StrictlySorted(q)
    ensures Elements(q) == Elements(r) + {x}
  {
    if r == [] then [x]
    else if x == r[0] then r
    else if LexLess(x, r[0]) then BelowHead(x, r); [x] + r
    else
      LexTotal(x, r[0]);
      var rest := Insert(x, r[1..]);
      assert Elements(r) == {r[0]} + Elements(r[1..]) by {
        assert r == [r[0]] + r[1..];
      }
      assert forall k :: 0 <= k < |rest| ==> LexLess(r[0], rest[k]) by {
        forall k | 0 <= k < |rest|
          ensures LexLess(r[0], rest[k])
        {
          assert rest[k] in Elements(rest);
        }
      }
      assert Elements([r[0]] + rest) == {r[0]} + Elements(rest);
      [r[0]] + rest
  }

  /** `sorted(uniquifier(labels))`: every label once, in increasing order. */
  function SortedUnique(labels: seq<string>): (r: seq<string>)
    ensures StrictlySorted(r)
    ensures Elements(r) == Elements(labels)
  {
    if labels == [] then []
    else
      assert Elements(labels) == {labels[0]} + Elements(labels[1..]) by {
        assert labels == [labels[0]] + labels[1..];
      }
      Insert(labels[0], SortedUnique(labels[1..]))
  }

  /**
    A strictly sorted list is determined by its elements: whatever
    de-duplication is used before sorting, the label list is the same.
  */
  lemma {:induction false} StrictlySortedUnique(a: seq<string>, b: seq<string>)
    requires StrictlySorted(a) && StrictlySorted(b)
    requires Elements(a) == Elements(b)
    ensures a == b
  {
    if a == [] {
      if b != [] {
        HeadIsElement(b);
        assert false;
      }
    } else {
      assert a[0] in Elements(b);
      assert b != [];
      assert b[0] in Elements(a);
      if a[0] != b[0] {
        var i :| 0 <= i < |a| && a[i] == b[0];
        var j :| 0 <= j < |b| && b[j] == a[0];
        assert LexLess(a[0], b[0]);
        assert LexLess(b[0], a[0]);
        LexAsymmetric(a[0], b[0]);
        assert false;
      }
      assert Elements(a[1..]) == Elements(b[1..]) by {
        assert a == [a[0]] + a[1..] && b == [b[0]] + b[1..];
        forall x ensures x in a[1..] <==> x in b[1..] {
          if x in a[1..] {
            var i :| 0 <= i < |a[1..]| && a[1..][i] == x;
            StrictlySortedDistinct(a, 0, i + 1);
            assert x in Elements(b) && x != b[0];
          }
          if x in b[1..] {
            var j :| 0 <= j < |b[1..]| && b[1..][j] == x;
            StrictlySortedDistinct(b, 0, j + 1);
            assert x in Elements(a) && x != a[0];
          }
        }
      }
      StrictlySortedUnique(a[1..], b[1..]);
    }
  }
}
