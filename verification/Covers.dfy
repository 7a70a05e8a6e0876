/**
 Blanking stretches of a text from the left: at every offset reached, a stretch that ends
 somewhere becomes spaces and reading goes on behind it; any other character stays.
 */
module Covers {

  function Spaces(n: nat): (r: string)
    ensures |r| == n && forall i :: 0 <= i < n ==> r[i] == ' '
  {
    seq(n, i => ' ')
  }

  /** Where the stretch that opens at an offset ends; -1 where none opens. */
  type Ends = int -> int

  ghost predicate AreEnds(s: string, ends: Ends) {
    forall k {:trigger ends(k)} :: 0 <= k < |s| ==> ends(k) == -1 || k < ends(k) < |s|
  }

  function Head(s: string, ends: Ends, i: nat): (head: string)
    requires i < |s| && (ends(i) == -1 || i < ends(i) < |s|)
    ensures 0 < |head| <= |s| - i
  {
    if ends(i) >= 0 then Spaces(ends(i) + 1 - i) else [s[i]]
  }

  ghost function Blanked(s: string, ends: Ends, i: nat): string
    requires i <= |s| && AreEnds(s, ends)
    decreases |s| - i
  {
    if i == |s| then [] else Head(s, ends, i) + Blanked(s, ends, i + |Head(s, ends, i)|)
  }

  // ---- The stretches that are blanked, said without the reading ----

  ghost predicate Covers(ends: Ends, starts: set<int>, k: int) {
    exists a :: a in starts && a <= k <= ends(a)
  }

  /** Disjoint stretches from `n` on, such that every offset where one opens lies in one of them. */
  ghost predicate IsCover(s: string, ends: Ends, n: int, starts: set<int>) {
    && (forall a :: a in starts ==> n <= a < ends(a) < |s|)
    && (forall a, b :: a in starts && b in starts && a < b ==> ends(a) < b)
    && (forall k {:trigger Covers(ends, starts, k)} :: n <= k < |s| && ends(k) >= 0 ==> Covers(ends, starts, k))
  }

  /** What is blanked, character by character. */
  ghost function CharAfter(s: string, ends: Ends, starts: set<int>, k: int): char
    requires 0 <= k < |s|
  {
    if Covers(ends, starts, k) then ' ' else s[k]
  }

  /** An offset that no stretch straddles is covered exactly when a stretch opens there. */
  lemma CoveredAtBoundary(s: string, ends: Ends, starts: set<int>, n: int)
    requires 0 <= n < |s| && AreEnds(s, ends) && IsCover(s, ends, 0, starts) && IsBoundary(ends, starts, n)
    ensures Covers(ends, starts, n) <==> ends(n) >= 0
    ensures ends(n) >= 0 <==> n in starts
  {
    if ends(n) >= 0 {
      assert Covers(ends, starts, n);
      var a :| a in starts && a <= n <= ends(a);
      assert a == n;
    }
  }

  lemma NextBoundary(s: string, ends: Ends, starts: set<int>, n: int, next: int)
    requires 0 <= n < |s| && AreEnds(s, ends) && IsCover(s, ends, 0, starts) && IsBoundary(ends, starts, n)
    requires next == if ends(n) >= 0 then ends(n) + 1 else n + 1
    ensures IsBoundary(ends, starts, next)
    ensures forall k :: n <= k < next ==> (Covers(ends, starts, k) <==> ends(n) >= 0)
  {
    CoveredAtBoundary(s, ends, starts, n);
    forall a | a in starts ensures ends(a) < next || next <= a {
      if n < a && ends(n) >= 0 {
        assert ends(n) < a;
      }
    }
    forall k | n <= k < next ensures Covers(ends, starts, k) <==> ends(n) >= 0 {
      if ends(n) >= 0 {
        assert n in starts && n <= k <= ends(n);
      }
    }
  }

  /** No stretch straddles `n`. */
  ghost predicate IsBoundary(ends: Ends, starts: set<int>, n: int) {
    forall a :: a in starts ==> ends(a) < n || n <= a
  }

  lemma BlankedHere(s: string, ends: Ends, starts: set<int>, n: nat, k: int)
    requires n < |s| && AreEnds(s, ends) && IsCover(s, ends, 0, starts) && IsBoundary(ends, starts, n)
    requires n <= k < n + |Head(s, ends, n)|
    ensures |Blanked(s, ends, n)| == |s| - n && Blanked(s, ends, n)[k - n] == CharAfter(s, ends, starts, k)
  {
    var head := Head(s, ends, n);
    NextBoundary(s, ends, starts, n, n + |head|);
    BlankedLength(s, ends, n);
    BlankedStarts(s, ends, n);
    ConcatAt(head, Blanked(s, ends, n + |head|), k - n);
  }

  lemma BlankedLater(s: string, ends: Ends, n: nat, next: nat, k: int, c: char)
    requires n < |s| && AreEnds(s, ends) && next == n + |Head(s, ends, n)| && next <= k < |s|
    requires |Blanked(s, ends, next)| == |s| - next && Blanked(s, ends, next)[k - next] == c
    ensures |Blanked(s, ends, n)| == |s| - n && Blanked(s, ends, n)[k - n] == c
  {
    BlankedLength(s, ends, n);
    BlankedStarts(s, ends, n);
    ConcatAt(Head(s, ends, n), Blanked(s, ends, next), k - n);
  }

  lemma BlankedStarts(s: string, ends: Ends, n: nat)
    requires n < |s| && AreEnds(s, ends)
    ensures Blanked(s, ends, n) == Head(s, ends, n) + Blanked(s, ends, n + |Head(s, ends, n)|)
  {
  }

  lemma {:induction false} BlankedFrom(s: string, ends: Ends, starts: set<int>, n: nat, k: int)
    requires n <= k < |s| && AreEnds(s, ends) && IsCover(s, ends, 0, starts) && IsBoundary(ends, starts, n)
    ensures |Blanked(s, ends, n)| == |s| - n && Blanked(s, ends, n)[k - n] == CharAfter(s, ends, starts, k)
    decreases |s| - n
  {
    var next := n + |Head(s, ends, n)|;
    if k < next {
      BlankedHere(s, ends, starts, n, k);
    } else {
      NextBoundary(s, ends, starts, n, next);
      BlankedFrom(s, ends, starts, next, k);
      BlankedLater(s, ends, n, next, k, CharAfter(s, ends, starts, k));
    }
  }

  lemma ConcatAt(a: string, b: string, i: nat)
    requires i < |a| + |b|
    ensures (a + b)[i] == if i < |a| then a[i] else b[i - |a|]
  {
  }

  lemma {:induction false} BlankedLength(s: string, ends: Ends, n: nat)
    requires n <= |s| && AreEnds(s, ends)
    ensures |Blanked(s, ends, n)| == |s| - n
    decreases |s| - n
  {
    if n < |s| {
      BlankedLength(s, ends, n + |Head(s, ends, n)|);
    }
  }

  /** Reading from the left blanks exactly the stretches of a cover, whichever cover one takes. */
  lemma BlankingIsExact(s: string, ends: Ends, starts: set<int>, k: int)
    requires 0 <= k < |s| && AreEnds(s, ends) && IsCover(s, ends, 0, starts)
    ensures |Blanked(s, ends, 0)| == |s| && Blanked(s, ends, 0)[k] == CharAfter(s, ends, starts, k)
  {
    BlankedFrom(s, ends, starts, 0, k);
  }

  lemma SkipOffset(s: string, ends: Ends, n: nat, starts: set<int>)
    requires n < |s| && ends(n) < 0 && IsCover(s, ends, n + 1, starts)
    ensures IsCover(s, ends, n, starts)
  {
  }

  lemma AddStretch(s: string, ends: Ends, n: nat, rest: set<int>)
    requires n < ends(n) < |s| && IsCover(s, ends, ends(n) + 1, rest)
    ensures IsCover(s, ends, n, rest + {n})
  {
    var starts := rest + {n};
    forall k | n <= k < |s| && ends(k) >= 0 ensures Covers(ends, starts, k) {
      CoversWithOne(s, ends, n, rest, k);
    }
    forall a, b | a in starts && b in starts && a < b ensures ends(a) < b {
    }
  }

  lemma CoversWithOne(s: string, ends: Ends, n: nat, rest: set<int>, k: int)
    requires n < ends(n) < |s| && IsCover(s, ends, ends(n) + 1, rest) && n <= k < |s| && ends(k) >= 0
    ensures Covers(ends, rest + {n}, k)
  {
    var starts := rest + {n};
    if k <= ends(n) {
      assert n in starts && n <= k <= ends(n);
    } else {
      assert Covers(ends, rest, k);
      var a :| a in rest && a <= k <= ends(a);
      assert a in starts;
    }
  }

  /** And there is one. */
  lemma {:induction false} SomeCover(s: string, ends: Ends, n: nat) returns (starts: set<int>)
    requires n <= |s| && AreEnds(s, ends)
    ensures IsCover(s, ends, n, starts)
    decreases |s| - n
  {
    if n == |s| {
      starts := {};
    } else {
      var end := ends(n);
      if end < 0 {
        starts := SomeCover(s, ends, n + 1);
        SkipOffset(s, ends, n, starts);
      } else {
        var rest := SomeCover(s, ends, end + 1);
        AddStretch(s, ends, n, rest);
        starts := rest + {n};
      }
    }
  }
}
