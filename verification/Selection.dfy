/** The four nearest anchors (complete_cb in firmware/apps/rtls/src/rtls/rtls.c). */
module Selection {
  import opened Prelude

  const MAX_TOF: nat := 0xFFFF_FFFF
  const WANTED: nat := 4

  /** One row of g_distance. */
  datatype Reading = Reading(anchor: nat, tof: nat, updated: bool) {
    predicate Valid() { anchor != 0 && updated }
  }

  ghost predicate WellFormed(rs: seq<Reading>) {
    && (forall j :: 0 <= j < |rs| ==> rs[j].tof <= MAX_TOF)
    && (forall j, k :: 0 <= j < k < |rs| && rs[j].Valid() && rs[k].Valid() ==> rs[j].anchor != rs[k].anchor)
  }

  /** The valid readings below the largest 32-bit time, by index, and the valid ones at it. */
  ghost function Low(rs: seq<Reading>): set<nat> {
    set j: nat | j < |rs| && rs[j].Valid() && rs[j].tof < MAX_TOF
  }

  ghost function High(rs: seq<Reading>): set<nat> {
    set j: nat | j < |rs| && rs[j].Valid() && rs[j].tof == MAX_TOF
  }

  ghost function Indices(sel: seq<nat>): set<nat> { set i | 0 <= i < |sel| :: sel[i] }

  /** sel lists different readings of the set, nearest first, and none left out is nearer than one of them. */
  ghost predicate Nearest(rs: seq<Reading>, among: set<nat>, sel: seq<nat>) {
    && (forall j :: j in among ==> j < |rs|)
    && (forall i :: 0 <= i < |sel| ==> sel[i] in among)
    && (forall i, k :: 0 <= i < k < |sel| ==> sel[i] != sel[k] && rs[sel[i]].tof <= rs[sel[k]].tof)
    && (forall i, j :: 0 <= i < |sel| && j in among && j !in sel ==> rs[sel[i]].tof <= rs[j].tof)
  }

  lemma DistinctCount(rs: seq<Reading>, among: set<nat>, sel: seq<nat>)
    requires Nearest(rs, among, sel)
    ensures |Indices(sel)| == |sel| <= |among| && Indices(sel) <= among
    ensures Indices(sel) == among <==> |sel| == |among|
  {
    IndicesSize(sel);
    assert Indices(sel) <= among;
    Subset(Indices(sel), among);
  }

  lemma Subset(a: set<nat>, b: set<nat>)
    requires a <= b
    ensures |a| <= |b| && (|a| == |b| <==> a == b)
  {
    assert b == a + (b - a);
  }

  lemma {:induction false} IndicesSize(sel: seq<nat>)
    requires forall i, k :: 0 <= i < k < |sel| ==> sel[i] != sel[k]
    ensures |Indices(sel)| == |sel|
  {
    if sel != [] {
      var n := |sel| - 1;
      IndicesSize(sel[..n]);
      assert Indices(sel) == Indices(sel[..n]) + {sel[n]};
      assert sel[n] !in Indices(sel[..n]);
    }
  }

  /** What the rest of the firmware expects: the nearest valid anchors, as many of the four as there are, the rest not updated. */
  ghost predicate FourNearest(rs: seq<Reading>, out: seq<Reading>) {
    exists sel :: IsSelection(rs, out, sel)
  }

  ghost predicate IsSelection(rs: seq<Reading>, out: seq<Reading>, sel: seq<nat>) {
    var valid := Low(rs) + High(rs);
    && |out| == 4 && Nearest(rs, valid, sel)
    && |sel| == (if |valid| < 4 then |valid| else 4)
    && (forall i :: 0 <= i < |sel| ==> out[i] == rs[sel[i]])
    && (forall i :: |sel| <= i < WANTED ==> !out[i].updated && out[i].anchor == 0)
  }

  /** A reading the i-th round may take: at least as far as the last one taken, and not taken before. */
  predicate Eligible(r: Reading, maxTof: nat, taken: seq<Reading>) {
    r.Valid() && r.tof >= maxTof && !(r.tof == maxTof && exists k :: 0 <= k < |taken| && taken[k].anchor == r.anchor)
  }

  /** The result of a round: the last of the nearest eligible readings. */
  ghost predicate Picked(rs: seq<Reading>, maxTof: nat, taken: seq<Reading>, at: int, upto: nat)
    requires upto <= |rs|
  {
    && -1 <= at < upto
    && (at == -1 ==> forall j :: 0 <= j < upto ==> !Eligible(rs[j], maxTof, taken))
    && (at >= 0 ==>
          && Eligible(rs[at], maxTof, taken)
          && (forall j :: 0 <= j < upto && Eligible(rs[j], maxTof, taken) ==> rs[at].tof <= rs[j].tof)
          && (forall j :: at < j < upto && Eligible(rs[j], maxTof, taken) ==> rs[at].tof < rs[j].tof))
  }

  class FourDistances {
    const tofs: array<nat>
    const anchors: array<nat>
    const updated: array<bool>

    ghost predicate Valid() {
      tofs.Length == anchors.Length == updated.Length == WANTED && tofs != anchors
    }

    ghost function Row(i: nat): Reading
      requires Valid() && i < WANTED
      reads tofs, anchors, updated
    {
      Reading(anchors[i], tofs[i], updated[i])
    }

    ghost function Rows(n: nat): (r: seq<Reading>)
      requires Valid() && n <= WANTED
      reads tofs, anchors, updated
      ensures |r| == n
    {
      seq(n, i requires 0 <= i < n reads tofs, anchors, updated => Row(i))
    }

    constructor ()
      ensures Valid() && fresh(tofs) && fresh(anchors) && fresh(updated)
    {
      tofs := new nat[WANTED](_ => 0);
      anchors := new nat[WANTED](_ => 0);
      updated := new bool[WANTED](_ => false);
    }

    /** One round of the outer loop. */
    method Round(rs: seq<Reading>, i: nat, maxTof: nat) returns (maxTof': nat, ghost at: int)
      requires Valid() && WellFormed(rs) && i < WANTED
      modifies tofs, anchors, updated
      ensures Rows(i) == old(Rows(i))
      ensures Picked(rs, maxTof, Rows(i), at, |rs|)
      ensures if at >= 0 then Row(i) == rs[at] else !updated[i] && anchors[i] == 0
      ensures maxTof' == if at >= 0 && rs[at].tof != MAX_TOF then rs[at].tof else maxTof
    {
      updated[i] := false;
      anchors[i] := 0;
      var minTof := MAX_TOF;
      at := -1;
      ghost var taken := Rows(i);
      assert taken == old(Rows(i));
      var j := 0;
      while j < |rs|
        invariant 0 <= j <= |rs| && Rows(i) == taken
        invariant Picked(rs, maxTof, taken, at, j)
        invariant if at >= 0 then Row(i) == rs[at] && minTof == rs[at].tof
                  else !updated[i] && anchors[i] == 0 && minTof == MAX_TOF
      {
        var r := rs[j];
        if r.anchor != 0 && r.updated && r.tof >= maxTof && r.tof <= minTof {
          var skip := false;
          if r.tof == maxTof {
            skip := AlreadyTaken(r.anchor, i);
            assert Rows(i) == taken;
          }
          assert Eligible(r, maxTof, taken) <==> !skip;
          if !skip {
            minTof := r.tof;
            tofs[i] := r.tof;
            anchors[i] := r.anchor;
            updated[i] := true;
            at := j;
          }
        }
        j := j + 1;
      }
      maxTof' := if minTof != MAX_TOF then minTof else maxTof;
    }

    method AlreadyTaken(anchor: nat, i: nat) returns (b: bool)
      requires Valid() && i < WANTED
      ensures b <==> exists k :: 0 <= k < |Rows(i)| && Rows(i)[k].anchor == anchor
    {
      var k := 0;
      while k < i
        invariant 0 <= k <= i
        invariant forall m :: 0 <= m < k ==> Rows(i)[m].anchor != anchor
      {
        assert Rows(i)[k].anchor == anchors[k];
        if anchors[k] == anchor { return true; }
        k := k + 1;
      }
      return false;
    }

    /** The whole selection. It meets its purpose unless a reading at the largest time is needed before the fourth row. */
    method Select(rs: seq<Reading>)
      requires Valid() && WellFormed(rs)
      modifies tofs, anchors, updated
      ensures FourNearest(rs, Rows(WANTED)) <==> High(rs) == {} || |Low(rs)| + 1 >= WANTED
    {
      hide Progress, FourNearest, Picked, Low, High, WellFormed;
      var maxTof, i := 0, 0;
      ghost var sel: seq<nat> := [];
      ghost var extra := -1;
      assert Rows(0) == [];
      NoProgress(rs);
      while i < WANTED
        invariant 0 <= i <= WANTED
        invariant Progress(rs, Rows(i), sel, extra, maxTof)
      {
        ghost var at;
        ghost var before := Rows(i);
        ghost var maxBefore := maxTof;
        maxTof, at := Round(rs, i, maxTof);
        assert Rows(i + 1) == before + [Row(i)];
        sel, extra := NextProgress(rs, before, sel, extra, maxBefore, at, Row(i));
        i := i + 1;
      }
      ProgressDecides(rs, Rows(WANTED), sel, extra, maxTof);
    }
  }

  /**
   * The state between rounds: sel are the low readings taken, in rows of their own; once these are used up,
   * every further row holds the same high reading, if there is one.
   */
  ghost predicate Progress(rs: seq<Reading>, out: seq<Reading>, sel: seq<nat>, extra: int, maxTof: nat) {
    && WellFormed(rs) && Nearest(rs, Low(rs), sel) && |sel| <= |out|
    && (forall i :: 0 <= i < |sel| ==> out[i] == rs[sel[i]])
    && maxTof == (if sel == [] then 0 else rs[sel[|sel| - 1]].tof)
    && (|sel| < |out| ==> Indices(sel) == Low(rs))
    && (|sel| < |out| ==> (extra == -1 <==> High(rs) == {}))
    && (extra != -1 ==> extra >= 0 && extra in High(rs) && forall j :: j in High(rs) ==> j <= extra)
    && (forall i :: |sel| <= i < |out| ==> if extra == -1 then !out[i].updated && out[i].anchor == 0 else out[i] == rs[extra])
  }

  lemma NoProgress(rs: seq<Reading>)
    requires WellFormed(rs)
    ensures Progress(rs, [], [], -1, 0)
  {
  }

  /** While a low reading is left, the eligible low readings are those not taken. */
  lemma EligibleLow(rs: seq<Reading>, out: seq<Reading>, sel: seq<nat>, extra: int, maxTof: nat, j: nat)
    requires Progress(rs, out, sel, extra, maxTof) && |sel| == |out| && j in Low(rs) + High(rs)
    ensures Eligible(rs[j], maxTof, out) <==> j !in sel
  {
    if j in sel {
      var i :| 0 <= i < |sel| && sel[i] == j;
      assert out[i].anchor == rs[j].anchor;
    } else {
      forall k | 0 <= k < |out| ensures out[k].anchor != rs[j].anchor {
        assert out[k] == rs[sel[k]];
      }
    }
  }

  lemma ProgressSize(rs: seq<Reading>, out: seq<Reading>, sel: seq<nat>, extra: int, maxTof: nat)
    requires Progress(rs, out, sel, extra, maxTof)
    ensures |sel| <= |out|
  {
  }

  lemma NextProgress(rs: seq<Reading>, out: seq<Reading>, sel: seq<nat>, extra: int, maxTof: nat, at: int, row: Reading)
    returns (sel': seq<nat>, extra': int)
    requires Progress(rs, out, sel, extra, maxTof) && Picked(rs, maxTof, out, at, |rs|)
    requires if at >= 0 then row == rs[at] else !row.updated && row.anchor == 0
    ensures Progress(rs, out + [row], sel', extra', if at >= 0 && rs[at].tof != MAX_TOF then rs[at].tof else maxTof)
  {
    ProgressSize(rs, out, sel, extra, maxTof);
    hide Progress, Low, High;
    sel', extra' := sel, extra;
    if |sel| < |out| {
      LateRound(rs, out, sel, extra, maxTof, at);
    } else if at >= 0 && rs[at].tof != MAX_TOF {
      sel' := sel + [at];
      TakeLow(rs, out, sel, extra, maxTof, at);
    } else {
      extra' := at;
      LowUsedUp(rs, out, sel, extra, maxTof, at, row);
    }
  }

  /** Appending the nearest of the readings left. */
  lemma NearestSnoc(rs: seq<Reading>, among: set<nat>, among': set<nat>, sel: seq<nat>, at: nat)
    requires Nearest(rs, among, sel) && among <= among' && at in among' && at !in sel
    requires forall j :: j in among' ==> j < |rs|
    requires forall i :: 0 <= i < |sel| ==> rs[sel[i]].tof <= rs[at].tof
    requires forall j :: j in among' && j !in sel ==> rs[at].tof <= rs[j].tof
    ensures Nearest(rs, among', sel + [at])
  {
    var sel' := sel + [at];
    forall i, k | 0 <= i < k < |sel'|
      ensures sel'[i] != sel'[k] && rs[sel'[i]].tof <= rs[sel'[k]].tof
    {
      assert sel'[i] == sel[i];
      if k < |sel| {
        assert sel'[k] == sel[k];
      }
    }
    forall i, j | 0 <= i < |sel'| && j in among' && j !in sel' ensures rs[sel'[i]].tof <= rs[j].tof {
      assert j !in sel;
      assert rs[sel'[i]].tof <= rs[at].tof;
    }
  }

  /** The reading picked is the nearest of the low ones left. */
  lemma PickedLow(rs: seq<Reading>, out: seq<Reading>, sel: seq<nat>, extra: int, maxTof: nat, at: nat)
    requires Progress(rs, out, sel, extra, maxTof) && |sel| == |out|
    requires Picked(rs, maxTof, out, at, |rs|) && rs[at].tof != MAX_TOF
    ensures at in Low(rs) && Nearest(rs, Low(rs), sel + [at])
  {
    assert at in Low(rs);
    EligibleLow(rs, out, sel, extra, maxTof, at);
    forall j | j in Low(rs) && j !in sel ensures rs[at].tof <= rs[j].tof {
      EligibleLow(rs, out, sel, extra, maxTof, j);
    }
    forall i | 0 <= i < |sel| ensures rs[sel[i]].tof <= rs[at].tof {
      assert rs[sel[i]].tof <= rs[sel[|sel| - 1]].tof;
    }
    hide Progress, Picked, Low, High;
    NearestSnoc(rs, Low(rs), Low(rs), sel, at);
  }

  lemma TakeLow(rs: seq<Reading>, out: seq<Reading>, sel: seq<nat>, extra: int, maxTof: nat, at: nat)
    requires Progress(rs, out, sel, extra, maxTof) && |sel| == |out|
    requires Picked(rs, maxTof, out, at, |rs|) && rs[at].tof != MAX_TOF
    ensures Progress(rs, out + [rs[at]], sel + [at], extra, rs[at].tof)
  {
    PickedLow(rs, out, sel, extra, maxTof, at);
    hide Picked, Nearest, Low, Eligible;
  }

  lemma LowUsedUp(rs: seq<Reading>, out: seq<Reading>, sel: seq<nat>, extra: int, maxTof: nat, at: int, row: Reading)
    requires Progress(rs, out, sel, extra, maxTof) && |sel| == |out|
    requires Picked(rs, maxTof, out, at, |rs|) && (at >= 0 ==> rs[at].tof == MAX_TOF)
    requires if at >= 0 then row == rs[at] else !row.updated && row.anchor == 0
    ensures Progress(rs, out + [row], sel, at, maxTof)
  {
    forall j | j in Low(rs) ensures j in Indices(sel) {
      EligibleLow(rs, out, sel, extra, maxTof, j);
    }
    assert Indices(sel) == Low(rs);
    if at >= 0 { assert at in High(rs); }
    forall j | j in High(rs) ensures at != -1 && j <= at {
      EligibleLow(rs, out, sel, extra, maxTof, j);
      assert j !in sel;
    }
  }

  /** When the low readings are used up, every round takes the same reading again. */
  lemma LateRound(rs: seq<Reading>, out: seq<Reading>, sel: seq<nat>, extra: int, maxTof: nat, at: int)
    requires Progress(rs, out, sel, extra, maxTof) && |sel| < |out| && Picked(rs, maxTof, out, at, |rs|)
    ensures at == extra && (at >= 0 ==> rs[at].tof == MAX_TOF)
  {
    forall j: nat | j < |rs| ensures Eligible(rs[j], maxTof, out) <==> j in High(rs) {
      if j in Low(rs) {
        LateLow(rs, out, sel, extra, maxTof, j);
      } else if j in High(rs) {
        assert maxTof < MAX_TOF;
      }
    }
  }

  lemma LateLow(rs: seq<Reading>, out: seq<Reading>, sel: seq<nat>, extra: int, maxTof: nat, j: nat)
    requires Progress(rs, out, sel, extra, maxTof) && |sel| < |out| && j in Low(rs)
    ensures !Eligible(rs[j], maxTof, out)
  {
    assert j in Indices(sel);
    var i :| 0 <= i < |sel| && sel[i] == j;
    assert out[i].anchor == rs[j].anchor;
  }

  lemma ProgressDecides(rs: seq<Reading>, out: seq<Reading>, sel: seq<nat>, extra: int, maxTof: nat)
    requires Progress(rs, out, sel, extra, maxTof) && |out| == WANTED
    ensures FourNearest(rs, out) <==> High(rs) == {} || |Low(rs)| + 1 >= WANTED
  {
    DistinctCount(rs, Low(rs), sel);
    if |sel| == WANTED {
      EnoughLow(rs, out, sel, extra, maxTof);
    } else if High(rs) == {} {
      assert Low(rs) + High(rs) == Low(rs);
      assert IsSelection(rs, out, sel);
    } else if |sel| + 1 == WANTED {
      OneHigh(rs, out, sel, extra, maxTof);
    } else {
      Repeats(rs, out, |sel|, extra);
    }
  }

  lemma FullSelection(rs: seq<Reading>, out: seq<Reading>, sel: seq<nat>)
    requires |out| == |sel| == WANTED && Nearest(rs, Low(rs) + High(rs), sel)
    requires forall i :: 0 <= i < WANTED ==> out[i] == rs[sel[i]]
    ensures FourNearest(rs, out)
  {
    DistinctCount(rs, Low(rs) + High(rs), sel);
    assert IsSelection(rs, out, sel);
  }

  lemma EnoughLow(rs: seq<Reading>, out: seq<Reading>, sel: seq<nat>, extra: int, maxTof: nat)
    requires Progress(rs, out, sel, extra, maxTof) && |out| == |sel| == WANTED
    ensures FourNearest(rs, out) && |Low(rs)| >= WANTED
  {
    DistinctCount(rs, Low(rs), sel);
    FullSelection(rs, out, sel);
  }

  lemma OneHigh(rs: seq<Reading>, out: seq<Reading>, sel: seq<nat>, extra: int, maxTof: nat)
    requires Progress(rs, out, sel, extra, maxTof) && |out| == |sel| + 1 == WANTED && extra >= 0
    ensures FourNearest(rs, out)
  {
    HighNearest(rs, sel, extra);
    FullSelection(rs, out, sel + [extra as nat]);
  }

  lemma HighNearest(rs: seq<Reading>, sel: seq<nat>, extra: nat)
    requires Nearest(rs, Low(rs), sel) && Indices(sel) == Low(rs) && extra in High(rs)
    ensures Nearest(rs, Low(rs) + High(rs), sel + [extra])
  {
    forall j | j in Low(rs) + High(rs) && j !in sel ensures j in High(rs) {
      assert j !in Indices(sel);
    }
    forall i | 0 <= i < |sel| ensures sel[i] != extra && rs[sel[i]].tof <= rs[extra].tof {
      assert sel[i] in Low(rs);
    }
    NearestSnoc(rs, Low(rs), Low(rs) + High(rs), sel, extra);
  }

  /** Two rows with the same valid reading are not a selection. */
  lemma Repeats(rs: seq<Reading>, out: seq<Reading>, i: nat, extra: nat)
    requires WellFormed(rs) && |out| == WANTED && i + 1 < WANTED && extra in High(rs)
    requires out[i] == out[i + 1] == rs[extra]
    ensures !FourNearest(rs, out)
  {
    forall sel ensures !IsSelection(rs, out, sel) {
      assert rs[extra].updated;
    }
  }

  /** The requirement pins down the times: two selections from the same readings list the same ones. */
  lemma SelectionIsUnique(rs: seq<Reading>, out: seq<Reading>, out': seq<Reading>, sel: seq<nat>, sel': seq<nat>, i: nat)
    requires IsSelection(rs, out, sel) && IsSelection(rs, out', sel') && i < |sel|
    ensures i < |sel'| && out[i].tof == out'[i].tof
  {
    AtMost(rs, Low(rs) + High(rs), sel, sel', i);
    AtMost(rs, Low(rs) + High(rs), sel', sel, i);
  }

  lemma AtMost(rs: seq<Reading>, valid: set<nat>, sel: seq<nat>, sel': seq<nat>, i: nat)
    requires Nearest(rs, valid, sel) && Nearest(rs, valid, sel') && i < |sel| && i < |sel'|
    ensures rs[sel[i]].tof <= rs[sel'[i]].tof
  {
    var k := NewAmongFirst(sel[..i], sel'[..i + 1]);
    if sel'[k] in sel {
      var m :| 0 <= m < |sel| && sel[m] == sel'[k];
      assert m >= i;
    }
    assert rs[sel[i]].tof <= rs[sel'[k]].tof <= rs[sel'[i]].tof;
  }

  /** Of two lists of different numbers, the longer one has an entry that is not in the other. */
  lemma NewAmongFirst(a: seq<nat>, b: seq<nat>) returns (k: nat)
    requires |a| < |b| && forall i, j :: 0 <= i < j < |a| ==> a[i] != a[j]
    requires forall i, j :: 0 <= i < j < |b| ==> b[i] != b[j]
    ensures k < |b| && b[k] !in a
  {
    IndicesSize(a);
    IndicesSize(b);
    if Indices(b) <= Indices(a) { Subset(Indices(b), Indices(a)); }
    var x :| x in Indices(b) && x !in Indices(a);
    k :| 0 <= k < |b| && b[k] == x;
  }
}
