/**
 * The indexed reader of telemetry logs: mavmmaplog in
 * software/linux/gateway/mavlink-1.0.13/pymavlink/mavutil.py, whose
 * skip_to_type is also that of DFReader_binary. It is held against walking
 * the log from front to back.
 */
module LogIndex {

  import opened Prelude
  import Mavlink

  type Byte = Mavlink.Byte

  /** A message in the log: where it starts, its message id, and its size with the time stamp before it. */
  datatype Record = Record(offset: nat, kind: nat, len: nat)

  // --------------------------------------------------------------- the linear walk

  /** What the header at an offset says; None for a byte that is no marker. */
  function HeaderAt(data: seq<Byte>, ofs: nat): (h: Option<Record>)
    requires ofs + 14 < |data| && (data[ofs + 8] == Mavlink.MARKER_V2 ==> ofs + 18 <= |data|)
    ensures h.Some? ==> h.value.offset == ofs && h.value.len > 0
  {
    if data[ofs + 8] == Mavlink.MARKER_V1 then Some(Record(ofs, data[ofs + 13], data[ofs + 9] as nat + 16))
    else if data[ofs + 8] == Mavlink.MARKER_V2 then
      var kind := data[ofs + 15] as nat + 0x100 * (data[ofs + 16] as nat) + 0x10000 * (data[ofs + 17] as nat);
      Some(Record(ofs, kind, data[ofs + 9] as nat + 20 + (if data[ofs + 10] % 2 == 1 then Mavlink.SIGNATURE_LEN else 0)))
    else None
  }

  predicate Ends(data: seq<Byte>, ofs: nat) {
    ofs + 14 >= |data| || (data[ofs + 8] == Mavlink.MARKER_V2 && ofs + 18 > |data|)
  }

  /** The messages of known kinds from an offset on, front to back. */
  function Scan(data: seq<Byte>, known: map<nat, string>, ofs: nat): seq<Record>
    decreases |data| - ofs
  {
    if Ends(data, ofs) then []
    else match HeaderAt(data, ofs)
      case None => Scan(data, known, ofs + 1)
      case Some(r) => (if r.kind in known then [r] else []) + Scan(data, known, ofs + r.len)
  }

  /** The offsets of one kind, in the order of the log. */
  function OffsetsOf(rs: seq<Record>, kind: nat): seq<nat> {
    if rs == [] then [] else (if rs[0].kind == kind then [rs[0].offset] else []) + OffsetsOf(rs[1..], kind)
  }

  function Select(rs: seq<Record>, kinds: set<nat>): seq<Record> {
    if rs == [] then [] else (if rs[0].kind in kinds then [rs[0]] else []) + Select(rs[1..], kinds)
  }

  ghost function First(rs: seq<Record>, kinds: set<nat>, condition: Record -> bool): Option<Record> {
    if rs == [] then None
    else if rs[0].kind in kinds && condition(rs[0]) then Some(rs[0])
    else First(rs[1..], kinds, condition)
  }

  ghost predicate Ascending(rs: seq<Record>, from: nat) {
    && (forall i :: 0 <= i < |rs| ==> from <= rs[i].offset)
    && (forall i, j :: 0 <= i < j < |rs| ==> rs[i].offset < rs[j].offset)
  }

  ghost predicate Inside(rs: seq<Record>, size: nat, known: map<nat, string>) {
    forall i :: 0 <= i < |rs| ==> rs[i].offset < size && rs[i].kind in known
  }

  lemma {:induction false} ScanAscending(data: seq<Byte>, known: map<nat, string>, ofs: nat)
    ensures Ascending(Scan(data, known, ofs), ofs) && Inside(Scan(data, known, ofs), |data|, known)
    decreases |data| - ofs
  {
    hide HeaderAt, Ends, Scan, Ascending, Inside;
    if Ends(data, ofs) {
      ScanEnds(data, known, ofs);
      NothingAscends(ofs, |data|, known);
    } else {
      GoesOn(data, ofs);
      ScanStep(data, known, ofs);
      match HeaderAt(data, ofs)
      case None =>
        ScanAscending(data, known, ofs + 1);
        AscendsFrom(Scan(data, known, ofs), ofs + 1, ofs);
      case Some(r) =>
        ScanAscending(data, known, ofs + r.len);
        var more := Scan(data, known, ofs + r.len);
        AscendsFrom(more, ofs + r.len, ofs);
        RecordAscends(r, more, |data|, known);
        assert [] + more == more;
    }
  }

  lemma GoesOn(data: seq<Byte>, ofs: nat)
    requires !Ends(data, ofs)
    ensures ofs + 14 < |data| && (data[ofs + 8] == Mavlink.MARKER_V2 ==> ofs + 18 <= |data|)
  {
  }

  lemma NothingAscends(from: nat, size: nat, known: map<nat, string>)
    ensures Ascending([], from) && Inside([], size, known)
  {
  }

  lemma AscendsFrom(rs: seq<Record>, from: nat, from': nat)
    requires Ascending(rs, from) && from' <= from
    ensures Ascending(rs, from')
  {
  }

  lemma RecordAscends(r: Record, more: seq<Record>, size: nat, known: map<nat, string>)
    requires r.len > 0 && Ascending(more, r.offset + r.len) && Inside(more, size, known) && r.offset < size
    ensures Ascending([r] + more, r.offset) && (r.kind in known ==> Inside([r] + more, size, known))
  {
  }

  /** Walks begun at and after the n-th of some records give the rest of them. */
  ghost predicate Resumes(data: seq<Byte>, known: map<nat, string>, rs: seq<Record>, n: nat)
    requires n < |rs|
  {
    && Scan(data, known, rs[n].offset) == rs[n..]
    && Scan(data, known, rs[n].offset + rs[n].len) == rs[n + 1..]
  }

  lemma ResumesLater(data: seq<Byte>, known: map<nat, string>, r: Record, more: seq<Record>, n: nat)
    requires n < |more| && Resumes(data, known, more, n)
    ensures Resumes(data, known, [r] + more, n + 1)
  {
    var rs := [r] + more;
    assert rs[n + 1] == more[n] && rs[n + 1..] == more[n..] && rs[n + 2..] == more[n + 1..];
  }

  lemma {:induction false} ResumesHere(data: seq<Byte>, known: map<nat, string>, r: Record, more: seq<Record>)
    requires Scan(data, known, r.offset) == [r] + more && Scan(data, known, r.offset + r.len) == more
    ensures Resumes(data, known, [r] + more, 0)
  {
    assert ([r] + more)[0..] == [r] + more && ([r] + more)[1..] == more;
  }

  /** A walk begun at one of the messages found is the rest of the walk that found it. */
  lemma {:induction false} ScanResumes(data: seq<Byte>, known: map<nat, string>, ofs: nat, n: nat)
    requires n < |Scan(data, known, ofs)|
    ensures Resumes(data, known, Scan(data, known, ofs), n)
    decreases |data| - ofs
  {
    hide HeaderAt, Ends, Scan, Resumes;
    if Ends(data, ofs) {
      ScanEnds(data, known, ofs);
      assert false;
    }
    GoesOn(data, ofs);
    ScanStep(data, known, ofs);
    var h := HeaderAt(data, ofs);
    if h.None? {
      ScanResumes(data, known, ofs + 1, n);
    } else {
      var r := h.value;
      var more := Scan(data, known, ofs + r.len);
      if r.kind !in known {
        assert Scan(data, known, ofs) == more;
        ScanResumes(data, known, ofs + r.len, n);
      } else if n == 0 {
        ResumesHere(data, known, r, more);
      } else {
        ScanResumes(data, known, ofs + r.len, n - 1);
        ResumesLater(data, known, r, more, n - 1);
      }
    }
  }

  lemma {:induction false} OffsetsConcat(a: seq<Record>, b: seq<Record>, kind: nat)
    ensures OffsetsOf(a + b, kind) == OffsetsOf(a, kind) + OffsetsOf(b, kind)
  {
    if a == [] {
      assert a + b == b;
    } else {
      var head := if a[0].kind == kind then [a[0].offset] else [];
      assert (a + b)[0] == a[0] && (a + b)[1..] == a[1..] + b;
      OffsetsConcat(a[1..], b, kind);
      assert OffsetsOf(a + b, kind) == head + OffsetsOf(a[1..] + b, kind);
      assert head + (OffsetsOf(a[1..], kind) + OffsetsOf(b, kind)) == (head + OffsetsOf(a[1..], kind)) + OffsetsOf(b, kind);
    }
  }

  lemma {:induction false} SelectConcat(a: seq<Record>, b: seq<Record>, kinds: set<nat>)
    ensures Select(a + b, kinds) == Select(a, kinds) + Select(b, kinds)
  {
    if a == [] {
      assert a + b == b;
    } else {
      var head := if a[0].kind in kinds then [a[0]] else [];
      assert (a + b)[0] == a[0] && (a + b)[1..] == a[1..] + b;
      SelectConcat(a[1..], b, kinds);
      assert Select(a + b, kinds) == head + Select(a[1..] + b, kinds);
      assert head + (Select(a[1..], kinds) + Select(b, kinds)) == (head + Select(a[1..], kinds)) + Select(b, kinds);
    }
  }

  lemma {:induction false} OffsetsSurviveSelect(rs: seq<Record>, kinds: set<nat>, kind: nat)
    requires kind in kinds
    ensures OffsetsOf(Select(rs, kinds), kind) == OffsetsOf(rs, kind)
  {
    if rs != [] {
      OffsetsSurviveSelect(rs[1..], kinds, kind);
      OffsetsConcat(if rs[0].kind in kinds then [rs[0]] else [], Select(rs[1..], kinds), kind);
    }
  }

  lemma AscendingTail(rs: seq<Record>, from: nat)
    requires Ascending(rs, from) && rs != []
    ensures Ascending(rs[1..], rs[0].offset + 1) && Ascending(rs[1..], from) && from <= rs[0].offset
  {
  }

  lemma AscendingCons(r: Record, rs: seq<Record>, from: nat)
    requires from <= r.offset && Ascending(rs, r.offset + 1)
    ensures Ascending([r] + rs, from) && Ascending(rs, from)
  {
  }

  ghost predicate Among(sel: seq<Record>, rs: seq<Record>, kinds: set<nat>) {
    forall i :: 0 <= i < |sel| ==> sel[i].kind in kinds && sel[i] in rs
  }

  lemma AmongCons(r: Record, sel: seq<Record>, rs: seq<Record>, kinds: set<nat>)
    requires rs != [] && Among(sel, rs[1..], kinds) && r == rs[0]
    ensures Among(sel, rs, kinds) && (r.kind in kinds ==> Among([r] + sel, rs, kinds))
  {
  }

  lemma {:induction false} SelectKeeps(rs: seq<Record>, kinds: set<nat>, from: nat)
    requires Ascending(rs, from)
    ensures Ascending(Select(rs, kinds), from) && Among(Select(rs, kinds), rs, kinds)
  {
    if rs != [] {
      var tail := Select(rs[1..], kinds);
      AscendingTail(rs, from);
      SelectKeeps(rs[1..], kinds, rs[0].offset + 1);
      AscendingCons(rs[0], tail, from);
      AmongCons(rs[0], tail, rs, kinds);
      hide Ascending, Among;
      assert rs[0].kind !in kinds ==> Select(rs, kinds) == tail;
    }
  }

  lemma {:induction false} OffsetsAtLeast(rs: seq<Record>, kind: nat, from: nat)
    requires Ascending(rs, from)
    ensures forall i :: 0 <= i < |OffsetsOf(rs, kind)| ==> from <= OffsetsOf(rs, kind)[i]
  {
    if rs != [] {
      OffsetsAtLeast(rs[1..], kind, from);
    }
  }

  lemma {:induction false} FirstSurvivesSelect(rs: seq<Record>, kinds: set<nat>, want: set<nat>,
                                               condition: Record -> bool)
    requires want <= kinds
    ensures First(Select(rs, kinds), want, condition) == First(rs, want, condition)
  {
    if rs != [] {
      FirstSurvivesSelect(rs[1..], kinds, want, condition);
      if rs[0].kind in kinds {
        assert Select(rs, kinds)[1..] == Select(rs[1..], kinds);
      } else {
        assert rs[0].kind !in want;
        assert Select(rs, kinds) == Select(rs[1..], kinds);
      }
    }
  }

  // ---------------------------------------------------------------- merging by kind

  /** How many messages of a kind are among the first n. */
  function Taken(rs: seq<Record>, n: nat, kind: nat): nat
    requires n <= |rs|
  {
    |OffsetsOf(rs[..n], kind)|
  }

  /** Of each kind, the next message not yet taken is the n-th of all or a later one. */
  lemma {:induction false} NextOfKind(rs: seq<Record>, n: nat, kind: nat)
    requires n < |rs| && Ascending(rs, 0)
    ensures var taken, list := Taken(rs, n, kind), OffsetsOf(rs, kind);
            && taken <= |list|
            && (rs[n].kind == kind ==>
                  taken < |list| && list[taken] == rs[n].offset && Taken(rs, n + 1, kind) == taken + 1)
            && (rs[n].kind != kind ==>
                  Taken(rs, n + 1, kind) == taken && (taken < |list| ==> rs[n].offset < list[taken]))
  {
    var a, b := rs[..n], rs[n + 1..];
    assert rs == a + ([rs[n]] + b) && rs[..n + 1] == a + [rs[n]];
    assert Ascending(b, rs[n].offset + 1);
    hide OffsetsOf, Ascending;
    OffsetsSplit(a, rs[n], b, kind);
    OffsetsAtLeast(b, kind, rs[n].offset + 1);
  }

  lemma {:induction false} OffsetsSplit(a: seq<Record>, r: Record, b: seq<Record>, kind: nat)
    ensures OffsetsOf(a + ([r] + b), kind)
         == OffsetsOf(a, kind) + ((if r.kind == kind then [r.offset] else []) + OffsetsOf(b, kind))
    ensures OffsetsOf(a + [r], kind) == OffsetsOf(a, kind) + (if r.kind == kind then [r.offset] else [])
  {
    OffsetsConcat(a, [r] + b, kind);
    OffsetsConcat(a, [r], kind);
    assert ([r] + b)[1..] == b && [r][1..] == [];
  }

  lemma {:induction false} AllTaken(rs: seq<Record>, kind: nat)
    ensures Taken(rs, |rs|, kind) == |OffsetsOf(rs, kind)|
  {
    assert rs[..|rs|] == rs;
  }

  // ----------------------------------------------------------------- the log reader

  /** The kinds among records whose names are in a set of names. */
  ghost function KindsNamed(known: map<nat, string>, rs: seq<Record>, types: set<string>): set<nat> {
    set i | 0 <= i < |rs| && rs[i].kind in known && known[rs[i].kind] in types :: rs[i].kind
  }

  ghost predicate Named(known: map<nat, string>) {
    forall k, l :: k in known && l in known && known[k] == known[l] ==> k == l
  }

  /** Every record is listed under its kind, in the order of the log. */
  ghost predicate Partitioned(known: map<nat, string>, rs: seq<Record>, offsets: map<nat, seq<nat>>) {
    && (forall i :: 0 <= i < |rs| ==> rs[i].kind in offsets)
    && (forall k :: k in offsets ==> k in known && offsets[k] == OffsetsOf(rs, k))
  }

  ghost predicate Counted(offsets: map<nat, seq<nat>>, counts: map<nat, nat>) {
    counts.Keys == offsets.Keys && forall k :: k in offsets ==> counts[k] == |offsets[k]|
  }

  ghost predicate NamesOf(known: map<nat, string>, kinds: set<nat>, nameToId: map<string, nat>) {
    && (forall n :: n in nameToId ==> nameToId[n] in kinds && nameToId[n] in known && known[nameToId[n]] == n)
    && (forall k :: k in kinds ==> k in known && known[k] in nameToId && nameToId[known[k]] == k)
  }

  lemma NewKindKeeps(known: map<nat, string>, rs: seq<Record>, offsets: map<nat, seq<nat>>, counts: map<nat, nat>,
                     nameToId: map<string, nat>, kind: nat)
    requires Named(known) && kind in known && kind !in offsets
    requires Partitioned(known, rs, offsets) && Counted(offsets, counts) && NamesOf(known, offsets.Keys, nameToId)
    ensures Partitioned(known, rs, offsets[kind := []]) && Counted(offsets[kind := []], counts[kind := 0])
    ensures NamesOf(known, offsets[kind := []].Keys, nameToId[known[kind] := kind])
  {
    hide OffsetsOf;
    NoOffsets(rs, kind);
    NamesGrow(known, offsets.Keys, nameToId, kind);
    assert offsets[kind := []].Keys == offsets.Keys + {kind};
    hide NamesOf;
  }

  lemma NamesGrow(known: map<nat, string>, kinds: set<nat>, nameToId: map<string, nat>, kind: nat)
    requires Named(known) && NamesOf(known, kinds, nameToId) && kind in known && kind !in kinds
    ensures NamesOf(known, kinds + {kind}, nameToId[known[kind] := kind])
  {
  }

  ghost predicate NoneEmpty(offsets: map<nat, seq<nat>>) {
    forall k :: k in offsets ==> |offsets[k]| > 0
  }

  lemma PartitionGrows(known: map<nat, string>, rs: seq<Record>, offsets: map<nat, seq<nat>>, r: Record)
    requires Partitioned(known, rs, offsets) && r.kind in offsets
    ensures Partitioned(known, rs + [r], offsets[r.kind := offsets[r.kind] + [r.offset]])
  {
    var all := rs + [r];
    forall k
      ensures OffsetsOf(all, k) == OffsetsOf(rs, k) + (if r.kind == k then [r.offset] else [])
    {
      OffsetsSplit(rs, r, [], k);
    }
  }

  class MMapLog {
    const data: seq<Byte>
    const known: map<nat, string>   // mavlink_map: the name of each message id
    const always: set<string>       // the types skip_to_type adds to every request
    var offsets: map<nat, seq<nat>>
    var counts: map<nat, nat>
    var nameToId: map<string, nat>
    var typeNums: Option<seq<nat>>
    var indexes: seq<nat>
    var offset: nat
    var position: nat               // where self.f stands
    ghost var latched: set<nat>
    ghost var visited: nat
    ghost var passed: nat           // how many messages lie before the position

    ghost function Records(): seq<Record>
    {
      Scan(data, known, 0)
    }

    /** The index holds every record of the log, by kind, in order. */
    ghost predicate Indexed()
      reads this`offsets, this`counts, this`nameToId
    {
      Named(known) && IndexOf(Records()) && NoneEmpty(offsets)
    }

    ghost predicate IndexOf(rs: seq<Record>)
      reads this`offsets, this`counts, this`nameToId
    {
      && Partitioned(known, rs, offsets)
      && Counted(offsets, counts)
      && NamesOf(known, offsets.Keys, nameToId)
    }

    /** The messages of the latched kinds, in the order of the log. */
    ghost function Filtered(): seq<Record>
      reads this
    {
      Select(Records(), latched)
    }

    /** The merge stands after the first `visited` messages of the latched kinds. */
    ghost predicate Merging()
      reads this
    {
      typeNums.Some? ==>
        && visited <= |Filtered()|
        && |indexes| == |typeNums.value|
        && (forall k :: k in latched <==> k in typeNums.value)
        && (forall i, j :: 0 <= i < j < |typeNums.value| ==> typeNums.value[i] != typeNums.value[j])
        && (forall i :: 0 <= i < |indexes| ==>
              typeNums.value[i] in offsets && indexes[i] == Taken(Filtered(), visited, typeNums.value[i]))
    }

    /** The file stands before a message of the walk, and those passed are the ones merged so far. */
    ghost predicate Standing()
      reads this
    {
      && passed <= |Records()|
      && Scan(data, known, position) == Records()[passed..]
      && (typeNums.Some? ==>
            visited <= |Filtered()| && Select(Records()[passed..], latched) == Filtered()[visited..])
    }

    constructor (data: seq<Byte>, known: map<nat, string>, always: set<string>)
      requires Named(known)
      ensures Indexed() && Merging() && Standing() && typeNums == None && position == 0
      ensures this.data == data && this.known == known && this.always == always
    {
      this.data, this.known, this.always := data, known, always;
      offsets, counts, nameToId := map[], map[], map[];
      typeNums, indexes, offset, position, latched, visited, passed := None, [], 0, 0, {}, 0, 0;
      new;
      InitArrays();
    }

    method InitArrays()
      requires Named(known)
      modifies this
      ensures Indexed() && Standing() && typeNums == None && position == 0 && offset == 0
    {
      hide Scan, HeaderAt, IndexOf;
      offsets, counts, nameToId, typeNums := map[], map[], map[], None;
      EmptyIndex();
      var ofs := 0;
      ghost var done := [];
      assert done + Scan(data, known, ofs) == Records();
      while !Ends(data, ofs)
        invariant done + Scan(data, known, ofs) == Records()
        invariant IndexOf(done) && NoneEmpty(offsets) && typeNums == None
        decreases |data| - ofs
      {
        ScanStep(data, known, ofs);
        var h := HeaderAt(data, ofs);
        if h.None? {
          ofs := ofs + 1;
          continue;
        }
        OnlyKnown(done);
        if h.value.kind !in offsets {
          if h.value.kind !in known {
            ofs := ofs + h.value.len;
            continue;
          }
          NewKind(h.value.kind, done);
        }
        Append(h.value, done);
        MoveOver(done, h.value, Scan(data, known, ofs + h.value.len));
        done := done + [h.value];
        ofs := ofs + h.value.len;
      }
      ScanEnds(data, known, ofs);
      assert done == Records();
      offset := 0;
      Rewind();
    }

    lemma MoveOver(done: seq<Record>, r: Record, rest: seq<Record>)
      ensures done + ([r] + rest) == (done + [r]) + rest
    {
    }

    lemma EmptyIndex()
      requires offsets == map[] && counts == map[] && nameToId == map[]
      ensures IndexOf([])
    {
    }

    /** A kind met for the first time. */
    method NewKind(kind: nat, ghost done: seq<Record>)
      requires Named(known) && IndexOf(done) && kind in known && kind !in offsets
      modifies this`offsets, this`counts, this`nameToId
      ensures IndexOf(done) && kind in offsets
      ensures forall k :: k in offsets && k != kind ==> k in old(offsets) && offsets[k] == old(offsets)[k]
    {
      NewKindKeeps(known, done, offsets, counts, nameToId, kind);
      hide Partitioned, Counted, NamesOf;
      offsets, counts := offsets[kind := []], counts[kind := 0];
      nameToId := nameToId[known[kind] := kind];
    }

    /** One message found. */
    method Append(r: Record, ghost done: seq<Record>)
      requires IndexOf(done) && r.kind in offsets
      modifies this`offsets, this`counts
      ensures IndexOf(done + [r]) && offsets == old(offsets)[r.kind := old(offsets)[r.kind] + [r.offset]]
    {
      hide Partitioned;
      PartitionGrows(known, done, offsets, r);
      offsets := offsets[r.kind := offsets[r.kind] + [r.offset]];
      counts := counts[r.kind := counts[r.kind] + 1];
      assert offsets.Keys == old(offsets).Keys;
    }

    lemma OnlyKnown(rs: seq<Record>)
      requires IndexOf(rs)
      ensures forall k :: k in offsets ==> k in known
    {
    }

    method Rewind()
      modifies this`typeNums, this`offset, this`position, this`passed
      ensures typeNums == None && offset == 0 && position == 0
      ensures Merging() && Standing()
    {
      offset, typeNums, position, passed := 0, None, 0, 0;
    }

    /** The first call after a rewind fixes the kinds that are merged. */
    method Latch(types: set<string>)
      requires Indexed()
      modifies this`typeNums, this`indexes, this`latched, this`visited
      ensures typeNums.Some? && Merging() && visited == 0
      ensures latched == KindsNamed(known, Records(), types + always)
    {
      hide Scan, Taken, KindsNamed, Indexed;
      var nums := Numbers(types + always);
      indexes := seq(|nums|, _ => 0);
      typeNums := Some(nums);
      latched := KindsNamed(known, Records(), types + always);
      visited := 0;
      SameKinds(types + always);
      NothingTaken(Filtered());
    }

    lemma SameKinds(wanted: set<string>)
      requires Indexed()
      ensures forall k :: k in KindsNamed(known, Records(), wanted) <==> k in offsets && k in known && known[k] in wanted
    {
      hide Scan, OffsetsOf;
      KindsAreIndexed();
    }

    method Numbers(wanted: set<string>) returns (nums: seq<nat>)
      requires Indexed()
      ensures forall k :: k in nums <==> k in offsets && k in known && known[k] in wanted
      ensures forall i, j :: 0 <= i < j < |nums| ==> nums[i] != nums[j]
    {
      hide Partitioned, Counted;
      nums := [];
      var rest := wanted;
      while rest != {}
        invariant rest <= wanted
        invariant forall k :: k in nums <==> k in offsets && k in known && known[k] in wanted - rest
        invariant forall i, j :: 0 <= i < j < |nums| ==> nums[i] != nums[j]
        decreases rest
      {
        var t :| t in rest;
        rest := rest - {t};
        if t in nameToId {
          assert nameToId[t] !in nums;
          nums := nums + [nameToId[t]];
        }
      }
    }

    /** Every kind in the index has a message in the log. */
    lemma KindsAreIndexed()
      requires Indexed()
      ensures forall k :: k in offsets <==> exists i :: 0 <= i < |Records()| && Records()[i].kind == k
    {
      forall k | k in offsets
        ensures exists i :: 0 <= i < |Records()| && Records()[i].kind == k
      {
        SomeOffset(Records(), k);
      }
    }

    /** The loop over the kinds: the one whose next message comes first. */
    method Smallest() returns (smallestIndex: int, smallestOffset: nat)
      requires Indexed() && Merging() && typeNums.Some?
      ensures -1 <= smallestIndex < |indexes|
      ensures forall i :: 0 <= i < |indexes| && indexes[i] < |offsets[typeNums.value[i]]| ==>
                smallestIndex >= 0 && smallestOffset <= offsets[typeNums.value[i]][indexes[i]]
      ensures smallestIndex >= 0 ==>
                var list := offsets[typeNums.value[smallestIndex]];
                indexes[smallestIndex] < |list| && smallestOffset == list[indexes[smallestIndex]]
    {
      hide Scan, Select, OffsetsOf, Taken, Filtered, NamesOf;
      smallestIndex, smallestOffset := -1, |data|;
      for i := 0 to |typeNums.value|
        invariant -1 <= smallestIndex < i
        invariant smallestIndex == -1 ==> smallestOffset == |data|
        invariant forall j :: 0 <= j < i && indexes[j] < |offsets[typeNums.value[j]]| ==>
                    smallestIndex >= 0 && smallestOffset <= offsets[typeNums.value[j]][indexes[j]]
        invariant smallestIndex >= 0 ==>
                    var list := offsets[typeNums.value[smallestIndex]];
                    indexes[smallestIndex] < |list| && smallestOffset == list[indexes[smallestIndex]]
      {
        var mtype := typeNums.value[i];
        if indexes[i] >= counts[mtype] {
          continue;
        }
        OffsetsInside(data, known, mtype, indexes[i]);
        var ofs := offsets[mtype][indexes[i]];
        if ofs < smallestOffset {
          smallestOffset, smallestIndex := ofs, i;
        }
      }
    }

    /** What the merge offers for one of its kinds. */
    lemma Candidate(i: nat)
      requires Indexed() && Merging() && typeNums.Some? && i < |indexes|
      ensures var kind := typeNums.value[i];
              var list := offsets[kind];
              && (visited == |Filtered()| ==> indexes[i] == |list|)
              && (visited < |Filtered()| && Filtered()[visited].kind == kind ==>
                    && indexes[i] < |list| && list[indexes[i]] == Filtered()[visited].offset
                    && Taken(Filtered(), visited + 1, kind) == indexes[i] + 1)
              && (visited < |Filtered()| && Filtered()[visited].kind != kind ==>
                    && Taken(Filtered(), visited + 1, kind) == indexes[i]
                    && (indexes[i] < |list| ==> Filtered()[visited].offset < list[indexes[i]]))
    {
      hide Scan, Select, OffsetsOf, Taken;
      var kind := typeNums.value[i];
      ScanAscending(data, known, 0);
      SelectKeeps(Records(), latched, 0);
      OffsetsSurviveSelect(Records(), latched, kind);
      if visited < |Filtered()| {
        NextOfKind(Filtered(), visited, kind);
      } else {
        AllTaken(Filtered(), kind);
      }
    }

    /** The kind of the next message is one of the merged kinds. */
    lemma SomeCandidate() returns (j: nat)
      requires Indexed() && Merging() && typeNums.Some? && visited < |Filtered()|
      ensures j < |typeNums.value| && typeNums.value[j] == Filtered()[visited].kind
    {
      hide Scan, Select, Taken;
      ScanAscending(data, known, 0);
      SelectKeeps(Records(), latched, 0);
      assert Filtered()[visited].kind in typeNums.value;
      j :| 0 <= j < |typeNums.value| && typeNums.value[j] == Filtered()[visited].kind;
    }

    /** The loop picks the kind of the next message, or none when no message is left. */
    lemma PickIsNext(smallestIndex: int, smallestOffset: nat)
      requires Indexed() && Merging() && typeNums.Some? && -1 <= smallestIndex < |indexes|
      requires forall i :: 0 <= i < |indexes| && indexes[i] < |offsets[typeNums.value[i]]| ==>
                 smallestIndex >= 0 && smallestOffset <= offsets[typeNums.value[i]][indexes[i]]
      requires smallestIndex >= 0 ==>
                 var list := offsets[typeNums.value[smallestIndex]];
                 indexes[smallestIndex] < |list| && smallestOffset == list[indexes[smallestIndex]]
      ensures smallestIndex >= 0 <==> visited < |Filtered()|
      ensures smallestIndex >= 0 ==>
                smallestOffset == Filtered()[visited].offset
                && typeNums.value[smallestIndex] == Filtered()[visited].kind
    {
      hide Scan, Select, Filtered, Taken;
      if smallestIndex >= 0 {
        Candidate(smallestIndex);
      }
      if visited < |Filtered()| {
        var j := SomeCandidate();
        Candidate(j);
      }
    }

    method SkipToType(types: set<string>)
      requires Indexed() && Merging()
      modifies this`typeNums, this`indexes, this`latched, this`visited, this`offset, this`position
      ensures Indexed() && Merging() && typeNums.Some?
      ensures latched == if old(typeNums).Some? then old(latched) else KindsNamed(known, Records(), types + always)
      ensures var n := if old(typeNums).Some? then old(visited) else 0;
              if n < |Filtered()| then visited == n + 1 && offset == position == Filtered()[n].offset
              else visited == n && offset == old(offset) && position == old(position)
    {
      if typeNums.None? {
        Latch(types);
      }
      Advance();
    }

    lemma OneTaken(smallestIndex: nat)
      requires Indexed() && Merging() && typeNums.Some? && smallestIndex < |indexes| && visited < |Filtered()|
      requires typeNums.value[smallestIndex] == Filtered()[visited].kind
      ensures forall i :: 0 <= i < |indexes| ==>
                Taken(Filtered(), visited + 1, typeNums.value[i]) == indexes[smallestIndex := indexes[smallestIndex] + 1][i]
    {
      hide Filtered, Taken, Indexed;
      forall i | 0 <= i < |indexes|
        ensures Taken(Filtered(), visited + 1, typeNums.value[i]) == indexes[smallestIndex := indexes[smallestIndex] + 1][i]
      {
        Candidate(i);
      }
    }

    /** The rest of skip_to_type. */
    method Advance()
      requires Indexed() && Merging() && typeNums.Some?
      modifies this`indexes, this`visited, this`offset, this`position
      ensures Indexed() && Merging()
      ensures var n := old(visited);
              if n < |Filtered()| then visited == n + 1 && offset == position == Filtered()[n].offset
              else visited == n && offset == old(offset) && position == old(position)
    {
      hide Scan, Select, Taken, IndexOf;
      var smallestIndex, smallestOffset := Smallest();
      PickIsNext(smallestIndex, smallestOffset);
      if smallestIndex >= 0 {
        OneTaken(smallestIndex);
        indexes := indexes[smallestIndex := indexes[smallestIndex] + 1];
        offset, position := smallestOffset, smallestOffset;
        visited := visited + 1;
      }
    }

    /** Reading on from where the file stands: the next message of a known kind. */
    method RecvMsg() returns (m: Option<Record>)
      modifies this`position
      ensures var rest := Scan(data, known, old(position));
              if rest == [] then m == None && position == old(position)
              else m == Some(rest[0]) && position == rest[0].offset + rest[0].len
    {
      var rest := Scan(data, known, position);
      if rest == [] {
        return None;
      }
      position := rest[0].offset + rest[0].len;
      return Some(rest[0]);
    }

    /** Where the walk goes on once the kinds to merge are fixed. */
    ghost function Start(): nat
      reads this`typeNums, this`passed
    {
      if typeNums.Some? then passed else 0
    }

    /** One round of recv_match: skipping, then reading. */
    method ReadNext(types: set<string>) returns (m: Option<Record>)
      requires Indexed() && Merging() && Standing()
      modifies this`typeNums, this`indexes, this`latched, this`visited, this`offset, this`position, this`passed
      ensures Indexed() && Merging() && Standing() && typeNums.Some?
      ensures latched == if old(typeNums).Some? then old(latched) else KindsNamed(known, Records(), types + always)
      ensures var n := if old(typeNums).Some? then old(visited) else 0;
              if n < |Filtered()| then m == Some(Filtered()[n]) && visited == n + 1
              else visited == n && (m.Some? ==> m.value.kind !in latched)
      ensures var n := if old(typeNums).Some? then old(visited) else 0;
              n <= |Filtered()| && Select(Records()[old(Start())..], latched) == Filtered()[n..]
      ensures m.Some? ==> passed > old(Start()) && Records()[passed - 1] == m.value
      ensures m.Some? ==> position == m.value.offset + m.value.len
      ensures old(typeNums).Some? && old(visited) == |Filtered()| ==>
                if old(passed) < |Records()| then m.Some? && passed == old(passed) + 1 else m.None?
    {
      hide Scan, Select, IndexOf, KindsNamed;
      ghost var p, n, q := Start(), if typeNums.Some? then visited else 0, passed;
      SkipToType(types);
      assert Records()[0..] == Records();
      if n < |Filtered()| {
        q := Ahead(p, n);
      } else {
        NoneAhead(p, q);
      }
      if q < |Records()| {
        ScanResumes(data, known, 0, q);
      }
      m := RecvMsg();
      passed := if m.Some? then q + 1 else q;
    }

    /** The next message to merge, in the whole walk. */
    lemma Ahead(p: nat, n: nat) returns (k: nat)
      requires p <= |Records()| && n < |Filtered()| && Select(Records()[p..], latched) == Filtered()[n..]
      ensures p <= k < |Records()| && Records()[k] == Filtered()[n]
      ensures Select(Records()[k + 1..], latched) == Filtered()[n + 1..]
      ensures Scan(data, known, Filtered()[n].offset) == Records()[k..]
    {
      hide Scan;
      k := SelectSuffix(Records()[p..], latched, 0);
      assert Records()[p..][k + 1..] == Records()[p + k + 1..];
      k := p + k;
      ScanResumes(data, known, 0, k);
    }

    /** With nothing left to merge, nothing that follows is of a merged kind. */
    lemma NoneAhead(p: nat, q: nat)
      requires p <= q <= |Records()| && Select(Records()[p..], latched) == []
      ensures Select(Records()[q..], latched) == []
      ensures q < |Records()| ==> Records()[q].kind !in latched && Select(Records()[q + 1..], latched) == []
    {
      hide Scan;
      assert Records()[p..] == Records()[p..q] + Records()[q..];
      SelectConcat(Records()[p..q], Records()[q..], latched);
      if q < |Records()| {
        assert Records()[q..][1..] == Records()[q + 1..];
      }
    }

    /**
     * recv_match returns the first message from here on, among those the
     * fixed kinds leave visible, that has one of the types and meets the
     * condition. The first call after a rewind fixes the kinds and starts
     * from the front.
     */
    method RecvMatch(types: set<string>, condition: Record -> bool) returns (m: Option<Record>)
      requires Indexed() && Merging() && Standing()
      modifies this`typeNums, this`indexes, this`latched, this`visited, this`offset, this`position, this`passed
      ensures Indexed() && Merging() && Standing() && typeNums.Some?
      ensures latched == if old(typeNums).Some? then old(latched) else KindsNamed(known, Records(), types + always)
      ensures m == First(Visible(Records()[old(Start())..], latched), KindsNamed(known, Records(), types), condition)
      ensures m.Some? ==> position == m.value.offset + m.value.len
    {
      hide Scan, Select, IndexOf, KindsNamed, First, Merging, Visible;
      MoreKinds(known, Records(), types, types + always);
      m := Round(types, condition);
      while m.Some? && !(m.value.kind in known && known[m.value.kind] in types && condition(m.value))
        invariant Indexed() && Merging() && Standing() && typeNums.Some?
        invariant latched == if old(typeNums).Some? then old(latched) else KindsNamed(known, Records(), types + always)
        invariant First(Visible(Records()[old(Start())..], latched), KindsNamed(known, Records(), types), condition)
               == Found(types, condition, m)
        invariant m.Some? ==> position == m.value.offset + m.value.len
        invariant m.Some? ==> m.value in Records()
        decreases m.Some?, |Records()| - passed
      {
        IsWanted(types, m.value);
        m := Round(types, condition);
      }
      if m.Some? {
        IsWanted(types, m.value);
      }
    }

    /** The answer of recv_match once a round has read m. */
    ghost function Found(types: set<string>, condition: Record -> bool, m: Option<Record>): Option<Record>
      requires passed <= |Records()|
      reads this`passed, this`latched
    {
      var want := KindsNamed(known, Records(), types);
      if m.Some? && !(m.value.kind in want && condition(m.value)) then
        First(Visible(Records()[passed..], latched), want, condition)
      else m
    }

    lemma IsWanted(types: set<string>, r: Record)
      requires r in Records()
      ensures r.kind in KindsNamed(known, Records(), types) <==> r.kind in known && known[r.kind] in types
    {
      hide Scan;
    }

    lemma IsLatched(n: nat)
      requires n < |Filtered()|
      ensures Filtered()[n].kind in latched
    {
      ScanAscending(data, known, 0);
      SelectKeeps(Records(), latched, 0);
    }

    /** One round and what it says about the answer. */
    method Round(types: set<string>, ghost condition: Record -> bool) returns (m: Option<Record>)
      requires Indexed() && Merging() && Standing()
      modifies this`typeNums, this`indexes, this`latched, this`visited, this`offset, this`position, this`passed
      ensures Indexed() && Merging() && Standing() && typeNums.Some?
      ensures latched == if old(typeNums).Some? then old(latched) else KindsNamed(known, Records(), types + always)
      ensures First(Visible(Records()[old(Start())..], latched), KindsNamed(known, Records(), types), condition)
           == Found(types, condition, m)
      ensures m.Some? ==> m.value in Records() && position == m.value.offset + m.value.len && passed > old(Start())
    {
      hide Scan, Select, IndexOf, KindsNamed, First, Merging, Visible;
      ghost var p, n, q, fixed := Start(), if typeNums.Some? then visited else 0, passed, typeNums.Some?;
      m := ReadNext(types);
      ghost var want, rs := KindsNamed(known, Records(), types), Records();
      MoreKinds(known, rs, types, types + always);
      if n < |Filtered()| {
        IsLatched(n);
        NextVisible(rs, latched, p, passed - 1);
      } else if fixed {
        AllVisible(rs, latched, q, want, condition);
      } else {
        assert rs[0..] == rs;
        NoneVisible(rs, 0, passed, latched, want, condition);
      }
      if n < |Filtered()| {
        FirstOf(rs[passed - 1], Visible(rs[passed..], latched), want, condition);
      }
    }
  }

  /**
   * What merging the latched kinds lets recv_match see: the messages of those
   * kinds, and after the last of them everything.
   */
  ghost function Visible(rs: seq<Record>, latched: set<nat>): seq<Record> {
    if rs == [] || Select(rs, latched) == [] then rs
    else (if rs[0].kind in latched then [rs[0]] else []) + Visible(rs[1..], latched)
  }

  lemma MoreKinds(known: map<nat, string>, rs: seq<Record>, types: set<string>, more: set<string>)
    requires types <= more
    ensures KindsNamed(known, rs, types) <= KindsNamed(known, rs, more)
  {
  }

  lemma {:induction false} FirstOf(r: Record, rs: seq<Record>, want: set<nat>, condition: Record -> bool)
    ensures First([r] + rs, want, condition)
         == if r.kind in want && condition(r) then Some(r) else First(rs, want, condition)
  {
    assert ([r] + rs)[1..] == rs;
  }

  ghost predicate Hit(r: Record, want: set<nat>, condition: Record -> bool) { r.kind in want && condition(r) }

  /** The answer is a hit with none before it, and missing only without any. */
  lemma {:induction false} FirstIs(rs: seq<Record>, want: set<nat>, condition: Record -> bool)
    ensures match First(rs, want, condition)
      case None => forall i :: 0 <= i < |rs| ==> !Hit(rs[i], want, condition)
      case Some(r) => exists i ::
        0 <= i < |rs| && rs[i] == r && Hit(r, want, condition) && forall j :: 0 <= j < i ==> !Hit(rs[j], want, condition)
  {
    if rs != [] && !Hit(rs[0], want, condition) {
      FirstIs(rs[1..], want, condition);
      var f := First(rs, want, condition);
      if f.Some? {
        var i :| 0 <= i < |rs[1..]| && rs[1..][i] == f.value && forall j :: 0 <= j < i ==> !Hit(rs[1..][j], want, condition);
        var at := i + 1;
        assert rs[at] == f.value;
        forall j | 0 <= j < at ensures !Hit(rs[j], want, condition) {
          if j > 0 { assert rs[j] == rs[1..][j - 1]; }
        }
      } else {
        forall i | 0 <= i < |rs| ensures !Hit(rs[i], want, condition) {
          if i > 0 { assert rs[i] == rs[1..][i - 1]; }
        }
      }
    }
  }

  /** Up to the next latched kind nothing is visible. */
  lemma {:induction false} NextVisible(rs: seq<Record>, latched: set<nat>, p: nat, k: nat)
    requires p <= k < |rs| && rs[k].kind in latched
    requires |Select(rs[p..], latched)| == |Select(rs[k + 1..], latched)| + 1
    ensures Visible(rs[p..], latched) == [rs[k]] + Visible(rs[k + 1..], latched)
    decreases k - p
  {
    assert rs[p..][1..] == rs[p + 1..];
    if p < k {
      assert rs[p + 1..] == rs[p + 1..k] + ([rs[k]] + rs[k + 1..]);
      SelectConcat(rs[p + 1..k], [rs[k]] + rs[k + 1..], latched);
      SelectConcat([rs[k]], rs[k + 1..], latched);
      NextVisible(rs, latched, p + 1, k);
    }
  }

  /** Past the last latched kind everything is visible. */
  lemma {:induction false} AllVisible(rs: seq<Record>, latched: set<nat>, q: nat, want: set<nat>,
                                      condition: Record -> bool)
    requires q <= |rs| && Select(rs[q..], latched) == []
    ensures q == |rs| ==> First(Visible(rs[q..], latched), want, condition) == None
    ensures q < |rs| ==>
              First(Visible(rs[q..], latched), want, condition)
              == if rs[q].kind in want && condition(rs[q]) then Some(rs[q])
                 else First(Visible(rs[q + 1..], latched), want, condition)
  {
    if q < |rs| {
      assert rs[q..][1..] == rs[q + 1..];
      SelectConcat([rs[q]], rs[q + 1..], latched);
      assert rs[q..] == [rs[q]] + rs[q + 1..];
    }
  }

  /** A log without the wanted kinds gives nothing from wherever it is read. */
  lemma {:induction false} NoneVisible(rs: seq<Record>, p: nat, q: nat, latched: set<nat>, want: set<nat>,
                                       condition: Record -> bool)
    requires p <= q <= |rs| && want <= latched && Select(rs[p..], latched) == []
    ensures First(Visible(rs[p..], latched), want, condition) == None
    ensures First(Visible(rs[q..], latched), want, condition) == None
  {
    assert rs[p..] == rs[p..q] + rs[q..];
    SelectConcat(rs[p..q], rs[q..], latched);
    FirstSurvivesSelect(rs[p..], latched, want, condition);
    FirstSurvivesSelect(rs[q..], latched, want, condition);
  }

  /** A wanted message that was not asked for at first comes before one that was. */
  ghost predicate Hides(rs: seq<Record>, latched: set<nat>, want: set<nat>) {
    exists i, j :: 0 <= i < j < |rs| && rs[i].kind in want && rs[i].kind !in latched && rs[j].kind in latched
  }

  lemma MissedCondition(rs: seq<Record>, from: nat, latched: set<nat>, want: set<nat>)
    returns (condition: Record -> bool)
    requires Ascending(rs, from) && Hides(rs, latched, want)
    ensures First(Visible(rs, latched), want, condition) != First(rs, want, condition)
  {
    hide Visible, First;
    var i, j :| 0 <= i < j < |rs| && rs[i].kind in want && rs[i].kind !in latched && rs[j].kind in latched;
    condition := (r: Record) => r == rs[i];
    HiddenIsMissed(rs, from, latched, i, j);
    OnlyThat(rs, want, i, condition);
    FirstMeets(Visible(rs, latched), want, condition);
  }

  /** recv_match equals the filtered walk for every condition, exactly when no wanted message is hidden. */
  lemma {:induction false} VisibleIsWalk(rs: seq<Record>, from: nat, latched: set<nat>, want: set<nat>)
    requires Ascending(rs, from)
    ensures (forall condition: Record -> bool ::
               First(Visible(rs, latched), want, condition) == First(rs, want, condition))
        <==> !Hides(rs, latched, want)
  {
    hide Visible, First, Hides, Ascending;
    if Hides(rs, latched, want) {
      var condition := MissedCondition(rs, from, latched, want);
    } else {
      forall condition: Record -> bool
        ensures First(Visible(rs, latched), want, condition) == First(rs, want, condition)
      {
        NothingMissed(rs, latched, want, condition);
      }
    }
  }

  lemma {:induction false} FirstMeets(rs: seq<Record>, want: set<nat>, condition: Record -> bool)
    ensures var f := First(rs, want, condition); f.Some? ==> f.value in rs && condition(f.value)
  {
    if rs != [] {
      FirstMeets(rs[1..], want, condition);
    }
  }

  lemma {:induction false} OnlyThat(rs: seq<Record>, want: set<nat>, i: nat, condition: Record -> bool)
    requires i < |rs| && rs[i].kind in want && condition(rs[i])
    ensures First(rs, want, condition) != None
  {
    if i > 0 {
      OnlyThat(rs[1..], want, i - 1, condition);
    }
  }

  lemma {:induction false} HiddenIsMissed(rs: seq<Record>, from: nat, latched: set<nat>, i: nat, j: nat)
    requires Ascending(rs, from) && i < j < |rs| && rs[i].kind !in latched && rs[j].kind in latched
    ensures rs[i] !in Visible(rs, latched)
  {
    Selected(rs, latched, j);
    VisibleAmong(rs[1..], latched);
    if i > 0 {
      HiddenIsMissed(rs[1..], from, latched, i - 1, j - 1);
    }
  }

  lemma {:induction false} Selected(rs: seq<Record>, kinds: set<nat>, j: nat)
    requires j < |rs| && rs[j].kind in kinds
    ensures Select(rs, kinds) != []
  {
    if j > 0 {
      Selected(rs[1..], kinds, j - 1);
    }
  }

  lemma {:induction false} VisibleAmong(rs: seq<Record>, latched: set<nat>)
    ensures forall r :: r in Visible(rs, latched) ==> r in rs
  {
    if rs != [] {
      VisibleAmong(rs[1..], latched);
    }
  }

  lemma {:induction false} NothingMissed(rs: seq<Record>, latched: set<nat>, want: set<nat>,
                                         condition: Record -> bool)
    requires !Hides(rs, latched, want)
    ensures First(Visible(rs, latched), want, condition) == First(rs, want, condition)
  {
    if rs != [] && Select(rs, latched) != [] {
      var j := SelectSuffix(rs, latched, 0);
      SelectKindIn(rs, latched);
      assert rs[j].kind in latched;
      forall a, b | 0 <= a < b < |rs[1..]| && rs[1..][a].kind in want && rs[1..][a].kind !in latched
        ensures rs[1..][b].kind !in latched
      {
        assert rs[a + 1] == rs[1..][a] && rs[b + 1] == rs[1..][b];
      }
      NothingMissed(rs[1..], latched, want, condition);
      if rs[0].kind in latched {
        FirstOf(rs[0], Visible(rs[1..], latched), want, condition);
      } else {
        assert rs[0].kind !in want;
        assert Visible(rs, latched) == Visible(rs[1..], latched);
      }
    }
  }

  lemma {:induction false} SelectKindIn(rs: seq<Record>, kinds: set<nat>)
    ensures forall k :: 0 <= k < |Select(rs, kinds)| ==> Select(rs, kinds)[k].kind in kinds
  {
    if rs != [] {
      SelectKindIn(rs[1..], kinds);
    }
  }

  lemma NothingTaken(rs: seq<Record>)
    ensures forall k :: Taken(rs, 0, k) == 0
  {
  }

  /** Each record selected splits the records so that the rest selects the rest. */
  lemma {:induction false} SelectSuffix(rs: seq<Record>, kinds: set<nat>, n: nat) returns (k: nat)
    requires n < |Select(rs, kinds)|
    ensures k < |rs| && rs[k] == Select(rs, kinds)[n]
    ensures Select(rs[k + 1..], kinds) == Select(rs, kinds)[n + 1..]
  {
    if rs[0].kind in kinds && n == 0 {
      k := 0;
    } else {
      k := SelectSuffix(rs[1..], kinds, if rs[0].kind in kinds then n - 1 else n);
      assert rs[1..][k + 1..] == rs[k + 2..];
      k := k + 1;
    }
  }

  lemma ScanStep(data: seq<Byte>, known: map<nat, string>, ofs: nat)
    requires !Ends(data, ofs)
    ensures match HeaderAt(data, ofs)
            case None => Scan(data, known, ofs) == Scan(data, known, ofs + 1)
            case Some(r) =>
              Scan(data, known, ofs) == (if r.kind in known then [r] else []) + Scan(data, known, ofs + r.len)
  {
  }

  lemma {:induction false} ScanEnds(data: seq<Byte>, known: map<nat, string>, ofs: nat)
    requires Ends(data, ofs)
    ensures Scan(data, known, ofs) == []
  {
  }

  lemma {:induction false} NoOffsets(rs: seq<Record>, kind: nat)
    requires forall i :: 0 <= i < |rs| ==> rs[i].kind != kind
    ensures OffsetsOf(rs, kind) == []
  {
    if rs != [] {
      NoOffsets(rs[1..], kind);
    }
  }

  lemma {:induction false} SomeOffset(rs: seq<Record>, kind: nat)
    requires |OffsetsOf(rs, kind)| > 0
    ensures exists i :: 0 <= i < |rs| && rs[i].kind == kind
  {
    if forall i :: 0 <= i < |rs| ==> rs[i].kind != kind {
      NoOffsets(rs, kind);
    }
  }

  lemma {:induction false} OffsetIsOfRecord(rs: seq<Record>, kind: nat, i: nat)
    requires i < |OffsetsOf(rs, kind)|
    ensures exists n :: 0 <= n < |rs| && rs[n].offset == OffsetsOf(rs, kind)[i]
  {
    if rs[0].kind == kind && i == 0 {
      assert rs[0].offset == OffsetsOf(rs, kind)[0];
    } else {
      var j := if rs[0].kind == kind then i - 1 else i;
      OffsetIsOfRecord(rs[1..], kind, j);
      var n :| 0 <= n < |rs[1..]| && rs[1..][n].offset == OffsetsOf(rs[1..], kind)[j];
      assert rs[n + 1] == rs[1..][n];
    }
  }

  lemma {:induction false} OffsetsInside(data: seq<Byte>, known: map<nat, string>, kind: nat, i: nat)
    requires i < |OffsetsOf(Scan(data, known, 0), kind)|
    ensures OffsetsOf(Scan(data, known, 0), kind)[i] < |data|
  {
    ScanAscending(data, known, 0);
    OffsetIsOfRecord(Scan(data, known, 0), kind, i);
  }
}
