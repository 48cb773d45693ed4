/** Greedy matching of ranked pairs (the pairing loop of `renames`,
    crates/solinv-static/src/idl_diff.rs): what taking the best pair first amounts to. */
module Matching {
  /** A candidate: a base slot and a head slot, by index. */
  datatype Pair = Pair(b: nat, h: nat)

  predicate Conflict(x: Pair, y: Pair) { x != y && (x.b == y.b || x.h == y.h) }

  /** Pairs best first; a pair is taken unless a slot of it is taken already. */
  function Greedy(pairs: seq<Pair>, usedB: set<nat>, usedH: set<nat>): seq<Pair> {
    if pairs == [] then []
    else if pairs[0].b in usedB || pairs[0].h in usedH then Greedy(pairs[1..], usedB, usedH)
    else [pairs[0]] + Greedy(pairs[1..], usedB + {pairs[0].b}, usedH + {pairs[0].h})
  }

  method TakeBest(pairs: seq<Pair>) returns (taken: seq<Pair>)
    ensures taken == Greedy(pairs, {}, {})
  {
    taken := [];
    var usedB, usedH := {}, {};
    for i := 0 to |pairs|
      invariant Greedy(pairs, {}, {}) == taken + Greedy(pairs[i..], usedB, usedH)
    {
      var p := pairs[i];
      assert pairs[i..][0] == p && pairs[i..][1..] == pairs[i + 1..];
      if p.b !in usedB && p.h !in usedH {
        assert taken + ([p] + Greedy(pairs[i + 1..], usedB + {p.b}, usedH + {p.h})) == (taken + [p]) +
            Greedy(pairs[i + 1..], usedB + {p.b}, usedH + {p.h});
        usedB, usedH := usedB + {p.b}, usedH + {p.h};
        taken := taken + [p];
      }
    }
  }

  ghost predicate OneToOne(m: set<Pair>) { forall x, y :: x in m && y in m ==> !Conflict(x, y) }

  /** No candidate left out is better than every pair it conflicts with. `pairs`: best first. */
  ghost predicate Stable(pairs: seq<Pair>, m: set<Pair>) {
    && OneToOne(m)
    && (forall x :: x in m ==> x in pairs)
    && forall i :: 0 <= i < |pairs| ==> pairs[i] in m || LosesTo(pairs, m, i)
  }

  ghost predicate LosesTo(pairs: seq<Pair>, m: set<Pair>, i: nat)
    requires i < |pairs|
  {
    exists j :: 0 <= j < i && pairs[j] in m && Conflict(pairs[i], pairs[j])
  }

  function Elements(s: seq<Pair>): set<Pair> { set x | x in s }

  ghost predicate Fresh(m: seq<Pair>, usedB: set<nat>, usedH: set<nat>) {
    forall x :: x in m ==> x.b !in usedB && x.h !in usedH
  }

  lemma GreedyFresh(pairs: seq<Pair>, usedB: set<nat>, usedH: set<nat>)
    ensures Fresh(Greedy(pairs, usedB, usedH), usedB, usedH)
    ensures forall x :: x in Greedy(pairs, usedB, usedH) ==> x in pairs
    ensures OneToOne(Elements(Greedy(pairs, usedB, usedH)))
    ensures forall i, j :: 0 <= i < j < |Greedy(pairs, usedB, usedH)| ==>
              Greedy(pairs, usedB, usedH)[i].b != Greedy(pairs, usedB, usedH)[j].b &&
              Greedy(pairs, usedB, usedH)[i].h != Greedy(pairs, usedB, usedH)[j].h
  {
    if pairs != [] {
      var p := pairs[0];
      if p.b in usedB || p.h in usedH {
        GreedyFresh(pairs[1..], usedB, usedH);
      } else {
        var rest := Greedy(pairs[1..], usedB + {p.b}, usedH + {p.h});
        GreedyFresh(pairs[1..], usedB + {p.b}, usedH + {p.h});
        forall x | x in rest ensures x.b !in usedB && x.h !in usedH && x.b != p.b && x.h != p.h {
          assert x.b !in usedB + {p.b} && x.h !in usedH + {p.h};
        }
      }
    }
  }

  /** What the greedy pass skips lost to a pair taken before it, or to a slot used already. */
  lemma {:induction false} GreedyLoses(pairs: seq<Pair>, usedB: set<nat>, usedH: set<nat>, i: nat)
    requires i < |pairs| && pairs[i] !in Greedy(pairs, usedB, usedH)
    ensures pairs[i].b in usedB || pairs[i].h in usedH || LosesTo(pairs, Elements(Greedy(pairs, usedB, usedH)), i)
  {
    var p := pairs[0];
    var taken := Greedy(pairs, usedB, usedH);
    if p.b in usedB || p.h in usedH {
      if i > 0 {
        GreedyLoses(pairs[1..], usedB, usedH, i - 1);
        if LosesTo(pairs[1..], Elements(taken), i - 1) {
          var j :| 0 <= j < i - 1 && pairs[1..][j] in Elements(taken) && Conflict(pairs[1..][i - 1], pairs[1..][j]);
          assert pairs[j + 1] in Elements(taken) && Conflict(pairs[i], pairs[j + 1]);
        }
      }
    } else {
      var rest := Greedy(pairs[1..], usedB + {p.b}, usedH + {p.h});
      assert taken == [p] + rest && p in taken && i > 0;
      assert pairs[i] == pairs[1..][i - 1] && pairs[i] !in rest && pairs[i] != p;
      GreedyLoses(pairs[1..], usedB + {p.b}, usedH + {p.h}, i - 1);
      if pairs[i].b == p.b || pairs[i].h == p.h {
        assert pairs[0] in Elements(taken) && Conflict(pairs[i], pairs[0]);
      } else if LosesTo(pairs[1..], Elements(rest), i - 1) {
        var j :| 0 <= j < i - 1 && pairs[1..][j] in Elements(rest) && Conflict(pairs[1..][i - 1], pairs[1..][j]);
        assert pairs[j + 1] in Elements(taken) && Conflict(pairs[i], pairs[j + 1]);
      }
    }
  }

  lemma GreedyStable(pairs: seq<Pair>)
    ensures Stable(pairs, Elements(Greedy(pairs, {}, {})))
  {
    GreedyFresh(pairs, {}, {});
    forall i | 0 <= i < |pairs|
      ensures pairs[i] in Elements(Greedy(pairs, {}, {})) || LosesTo(pairs, Elements(Greedy(pairs, {}, {})), i)
    {
      if pairs[i] !in Greedy(pairs, {}, {}) {
        GreedyLoses(pairs, {}, {}, i);
      }
    }
  }

  lemma {:induction false} StableAgree(pairs: seq<Pair>, m: set<Pair>, n: set<Pair>, k: nat)
    requires Stable(pairs, m) && Stable(pairs, n) && k <= |pairs|
    ensures forall i :: 0 <= i < k ==> (pairs[i] in m <==> pairs[i] in n)
  {
    if k > 0 {
      StableAgree(pairs, m, n, k - 1);
    }
  }

  /** There is one matching with no blocking pair. */
  lemma StableUnique(pairs: seq<Pair>, m: set<Pair>, n: set<Pair>)
    requires Stable(pairs, m) && Stable(pairs, n)
    ensures m == n
  {
    StableAgree(pairs, m, n, |pairs|);
    forall x ensures x in m <==> x in n {
      if x in pairs {
        var i :| 0 <= i < |pairs| && pairs[i] == x;
      }
    }
  }
}
