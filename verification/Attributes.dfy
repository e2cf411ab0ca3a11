/** Attribute-value-unit triples and the "set"/"add" rule by which the extractor replays a list of them. */
module Attributes {

  datatype Avu = Avu(name: string, value: string, unit: string)

  /** What "set" leaves of a collection's or object's triples before it adds its own. */
  function Without(s: set<Avu>, name: string): set<Avu> {
    set a | a in s && a.name != name
  }

  /** Entry `k` follows an entry with the same name, so that it is added instead of set. */
  predicate Continues(list: seq<Avu>, k: nat)
    requires k < |list|
  {
    k > 0 && list[k - 1].name == list[k].name
  }

  /** The triples after `list` was replayed over `s`. */
  function Replay(list: seq<Avu>, s: set<Avu>): set<Avu> {
    if list == [] then s
    else
      var n := |list| - 1;
      var pre := Replay(list[..n], s);
      (if Continues(list, n) then pre else Without(pre, list[n].name)) + {list[n]}
  }

  /** Entry `k` belongs to the last contiguous run of its name. */
  ghost predicate InLastRun(list: seq<Avu>, k: nat) {
    k < |list| &&
    forall m :: k <= m < |list| && list[m].name == list[k].name ==>
      forall l :: k <= l <= m ==> list[l].name == list[k].name
  }

  ghost predicate Listed(list: seq<Avu>, name: string) {
    exists k :: 0 <= k < |list| && list[k].name == name
  }

  ghost predicate InRunOf(list: seq<Avu>, a: Avu) {
    exists k :: 0 <= k < |list| && InLastRun(list, k) && list[k] == a
  }

  /** Equal names are adjacent. */
  ghost predicate Grouped(list: seq<Avu>) {
    forall k :: 0 <= k < |list| ==> InLastRun(list, k)
  }

  lemma {:induction false} LastRunStep(list: seq<Avu>, k: nat)
    requires k + 1 < |list|
    ensures InLastRun(list, k) <==>
            (InLastRun(list[..|list| - 1], k) &&
             (list[k].name == list[|list| - 1].name ==> Continues(list, |list| - 1)))
  {
    var n := |list| - 1;
    var pre := list[..n];
    if InLastRun(list, k) {
      forall m | k <= m < n && pre[m].name == pre[k].name
        ensures forall l :: k <= l <= m ==> pre[l].name == pre[k].name
      {
        assert list[m].name == list[k].name;
        assert forall l :: k <= l <= m ==> pre[l] == list[l];
      }
    }
    if InLastRun(pre, k) && (list[k].name == list[n].name ==> Continues(list, n)) {
      assert forall l :: k <= l < n ==> pre[l] == list[l];
      forall m | k <= m < |list| && list[m].name == list[k].name
        ensures forall l :: k <= l <= m ==> list[l].name == list[k].name
      {
        if m == n {
          assert pre[n - 1].name == pre[k].name;
        } else {
          assert pre[m].name == pre[k].name;
        }
      }
    }
  }

  lemma {:induction false} ListedStep(list: seq<Avu>, name: string)
    requires list != []
    ensures Listed(list, name) <==> (Listed(list[..|list| - 1], name) || name == list[|list| - 1].name)
  {
    var pre := list[..|list| - 1];
    assert forall k :: 0 <= k < |pre| ==> pre[k] == list[k];
    if Listed(pre, name) {
      var k :| 0 <= k < |pre| && pre[k].name == name;
      assert list[k].name == name;
    }
  }

  lemma {:induction false} InRunOfStep(list: seq<Avu>, a: Avu)
    requires list != []
    ensures var n := |list| - 1;
            InRunOf(list, a) <==>
            (a == list[n] || (InRunOf(list[..n], a) && (a.name == list[n].name ==> Continues(list, n))))
  {
    var n := |list| - 1;
    var pre := list[..n];
    assert InLastRun(list, n);
    if InRunOf(list, a) && a != list[n] {
      var k :| 0 <= k < |list| && InLastRun(list, k) && list[k] == a;
      LastRunStep(list, k);
      assert pre[k] == a;
    }
    if InRunOf(pre, a) && (a.name == list[n].name ==> Continues(list, n)) {
      var k :| 0 <= k < |pre| && InLastRun(pre, k) && pre[k] == a;
      LastRunStep(list, k);
      assert list[k] == a;
    }
  }

  lemma {:induction false} ContinuesListed(list: seq<Avu>)
    requires list != []
    ensures Continues(list, |list| - 1) ==> Listed(list[..|list| - 1], list[|list| - 1].name)
  {
    var n := |list| - 1;
    if Continues(list, n) {
      assert list[..n][n - 1].name == list[n].name;
    }
  }

  /**
   * Replaying any list over any triples: a listed name ends with exactly the last run of that name,
   * every other name keeps what it had.
   */
  lemma {:induction false} ReplayMeaning(list: seq<Avu>, s: set<Avu>, a: Avu)
    ensures a in Replay(list, s) <==> if Listed(list, a.name) then InRunOf(list, a) else a in s
  {
    if list != [] {
      hide InRunOf, Listed, Continues;
      var n := |list| - 1;
      ReplayMeaning(list[..n], s, a);
      ListedStep(list, a.name);
      InRunOfStep(list, a);
      ContinuesListed(list);
    }
  }

  /** Replaying the same list twice changes nothing the second time. */
  lemma {:induction false} ReplayIdempotent(list: seq<Avu>, s: set<Avu>)
    ensures Replay(list, Replay(list, s)) == Replay(list, s)
  {
    forall a
      ensures a in Replay(list, Replay(list, s)) <==> a in Replay(list, s)
    {
      ReplayMeaning(list, s, a);
      ReplayMeaning(list, Replay(list, s), a);
    }
  }

  ghost function Triples(list: seq<Avu>): set<Avu> {
    set a | a in list
  }

  /**
   * A list of different triples replayed over nothing gives back exactly its triples
   * if and only if equal names are adjacent.
   */
  lemma {:induction false} ReplayExactIffGrouped(list: seq<Avu>)
    requires forall i, j :: 0 <= i < j < |list| ==> list[i] != list[j]
    ensures Replay(list, {}) == Triples(list) <==> Grouped(list)
  {
    forall a
      ensures a in Replay(list, {}) <==> InRunOf(list, a)
    {
      ReplayMeaning(list, {}, a);
    }
    if Grouped(list) {
      forall a | a in list
        ensures InRunOf(list, a)
      {
        var k :| 0 <= k < |list| && list[k] == a;
        assert InLastRun(list, k);
      }
    } else {
      var k :| 0 <= k < |list| && !InLastRun(list, k);
      assert list[k] in Triples(list);
      assert !InRunOf(list, list[k]);
    }
  }

  /** A name that comes back after another one loses what it had before. */
  lemma {:induction false} InterruptedNameLoses(x: string, y: string, u: string, v: string, w: string)
    requires x != y && u != w
    ensures var list := [Avu(x, u, ""), Avu(y, v, ""), Avu(x, w, "")];
            !Grouped(list) && Replay(list, {}) == {Avu(y, v, ""), Avu(x, w, "")}
  {
    var list := [Avu(x, u, ""), Avu(y, v, ""), Avu(x, w, "")];
    assert list[..2] == [Avu(x, u, ""), Avu(y, v, "")] && list[..2][..1] == [Avu(x, u, "")];
    assert list[..2][..1][..0] == [];
    assert Replay(list[..2][..1], {}) == {Avu(x, u, "")};
    assert Replay(list[..2], {}) == {Avu(x, u, ""), Avu(y, v, "")};
    assert list[2].name == list[0].name && list[1].name != list[0].name;
    assert !InLastRun(list, 0);
  }

  // ---- calls that are refused ----

  /** The triples after `list` was replayed over `s` with the calls of these positions refused. */
  function ReplayOnly(list: seq<Avu>, lost: set<nat>, s: set<Avu>): set<Avu> {
    if list == [] then s
    else
      var n := |list| - 1;
      var pre := ReplayOnly(list[..n], lost, s);
      if n in lost then pre
      else (if Continues(list, n) then pre else Without(pre, list[n].name)) + {list[n]}
  }

  /** From entry `k` on, a call that is not refused sets this name. */
  ghost predicate ResetFrom(list: seq<Avu>, lost: set<nat>, name: string, k: nat) {
    exists e :: k <= e < |list| && e !in lost && !Continues(list, e) && list[e].name == name
  }

  /** The triple has a call of its own that is not refused, and its name is not set after. */
  ghost predicate Survives(list: seq<Avu>, lost: set<nat>, a: Avu) {
    exists k :: 0 <= k < |list| && k !in lost && list[k] == a && !ResetFrom(list, lost, a.name, k + 1)
  }

  ghost predicate NothingLost(list: seq<Avu>, lost: set<nat>) {
    forall k :: 0 <= k < |list| ==> k !in lost
  }

  lemma {:induction false} ResetStep(list: seq<Avu>, lost: set<nat>, name: string, k: nat)
    requires k < |list|
    ensures var n := |list| - 1;
            ResetFrom(list, lost, name, k) <==>
            (ResetFrom(list[..n], lost, name, k) || (n !in lost && !Continues(list, n) && list[n].name == name))
  {
    hide Continues;
    var n := |list| - 1;
    var pre := list[..n];
    if ResetFrom(pre, lost, name, k) {
      var e :| k <= e < n && e !in lost && !Continues(pre, e) && pre[e].name == name;
      ContinuesBefore(list, e);
    }
    if ResetFrom(list, lost, name, k) {
      var e :| k <= e < |list| && e !in lost && !Continues(list, e) && list[e].name == name;
      if e < n {
        ContinuesBefore(list, e);
      }
    }
  }

  lemma {:induction false} ContinuesBefore(list: seq<Avu>, k: nat)
    requires k + 1 < |list|
    ensures Continues(list[..|list| - 1], k) == Continues(list, k) && list[..|list| - 1][k] == list[k]
  {
  }

  lemma {:induction false} SurvivesStep(list: seq<Avu>, lost: set<nat>, a: Avu)
    requires list != []
    ensures var n := |list| - 1;
            Survives(list, lost, a) <==>
            ((n !in lost && list[n] == a) ||
             (Survives(list[..n], lost, a) && !(n !in lost && !Continues(list, n) && list[n].name == a.name)))
  {
    var n := |list| - 1;
    var pre := list[..n];
    if Survives(list, lost, a) {
      var k :| 0 <= k < |list| && k !in lost && list[k] == a && !ResetFrom(list, lost, a.name, k + 1);
      if k < n {
        ResetStep(list, lost, a.name, k + 1);
        assert pre[k] == a;
      }
    }
    if n !in lost && list[n] == a {
      assert !ResetFrom(list, lost, a.name, n + 1);
    } else if Survives(pre, lost, a) && !(n !in lost && !Continues(list, n) && list[n].name == a.name) {
      var k :| 0 <= k < n && k !in lost && pre[k] == a && !ResetFrom(pre, lost, a.name, k + 1);
      ResetStep(list, lost, a.name, k + 1);
      assert list[k] == a;
    }
  }

  /**
   * Whatever is refused: a triple is there afterwards if and only if it was there before and its name is never set,
   * or its own call was made and its name is not set after.
   */
  lemma {:induction false} ReplayOnlyMeaning(list: seq<Avu>, lost: set<nat>, s: set<Avu>, a: Avu)
    ensures a in ReplayOnly(list, lost, s) <==>
            (a in s && !ResetFrom(list, lost, a.name, 0)) || Survives(list, lost, a)
  {
    if list != [] {
      ReplayOnlyMeaning(list[..|list| - 1], lost, s, a);
      ResetStep(list, lost, a.name, 0);
      SurvivesStep(list, lost, a);
    }
  }

  /** Whatever is refused, a name that is not listed keeps what it had. */
  lemma {:induction false} UnlistedKept(list: seq<Avu>, lost: set<nat>, s: set<Avu>, a: Avu)
    requires !Listed(list, a.name)
    ensures a in ReplayOnly(list, lost, s) <==> a in s
  {
    ReplayOnlyMeaning(list, lost, s, a);
  }

  /** The next call, made or refused. */
  lemma {:induction false} ReplayOnlyNext(list: seq<Avu>, lost: set<nat>, s: set<Avu>, i: nat)
    requires i < |list| && forall k :: k in lost ==> k < i
    ensures var pre := ReplayOnly(list[..i], lost, s);
            ReplayOnly(list[..i + 1], lost + {i}, s) == pre &&
            ReplayOnly(list[..i + 1], lost, s) ==
              (if Continues(list, i) then pre else Without(pre, list[i].name)) + {list[i]}
  {
    hide Without;
    assert list[..i + 1][..i] == list[..i];
    LostBeyond(list[..i], lost, s, i);
  }

  /** A position beyond the list is no call of it. */
  lemma {:induction false} LostBeyond(list: seq<Avu>, lost: set<nat>, s: set<Avu>, k: nat)
    requires k >= |list|
    ensures ReplayOnly(list, lost + {k}, s) == ReplayOnly(list, lost, s)
  {
    if list != [] {
      LostBeyond(list[..|list| - 1], lost, s, k);
    }
  }

  lemma {:induction false} ReplayNothingLost(list: seq<Avu>, lost: set<nat>, s: set<Avu>)
    requires NothingLost(list, lost)
    ensures ReplayOnly(list, lost, s) == Replay(list, s)
  {
    if list != [] {
      ReplayNothingLost(list[..|list| - 1], lost, s);
    }
  }

  /** A complete replay makes up for all that was refused in an earlier one. */
  lemma {:induction false} ReplayRepairs(list: seq<Avu>, lost: set<nat>, s: set<Avu>)
    ensures Replay(list, ReplayOnly(list, lost, s)) == Replay(list, s)
  {
    forall a
      ensures a in Replay(list, ReplayOnly(list, lost, s)) <==> a in Replay(list, s)
    {
      ReplayMeaning(list, ReplayOnly(list, lost, s), a);
      ReplayMeaning(list, s, a);
      if !Listed(list, a.name) {
        UnlistedKept(list, lost, s, a);
      }
    }
  }

  /**
   * What was listed of different triples, perhaps not all, and replayed over nothing, perhaps not every call, gives
   * back all of them if and only if equal names are adjacent, all were listed and no call was refused.
   */
  lemma {:induction false} ReplayOnlyExactIff(list: seq<Avu>, part: seq<Avu>, lost: set<nat>)
    requires forall i, j :: 0 <= i < j < |list| ==> list[i] != list[j]
    requires part <= list
    ensures ReplayOnly(part, lost, {}) == Triples(list) <==> Grouped(list) && part == list && NothingLost(part, lost)
  {
    if part != list {
      TripleMissing(list, part, lost, |part|);
    } else if !NothingLost(part, lost) {
      var k :| 0 <= k < |part| && k in lost;
      TripleMissing(list, part, lost, k);
    } else {
      ReplayNothingLost(part, lost, {});
      ReplayExactIffGrouped(list);
    }
  }

  /** A triple comes from its own call only. */
  lemma {:induction false} TripleMissing(list: seq<Avu>, part: seq<Avu>, lost: set<nat>, k: nat)
    requires forall i, j :: 0 <= i < j < |list| ==> list[i] != list[j]
    requires part <= list && k < |list| && (k >= |part| || k in lost)
    ensures ReplayOnly(part, lost, {}) != Triples(list)
  {
    ReplayOnlyMeaning(part, lost, {}, list[k]);
    forall i | 0 <= i < |part| && i !in lost
      ensures part[i] != list[k]
    {
      assert part[i] == list[i];
    }
    assert list[k] in Triples(list);
  }
}
