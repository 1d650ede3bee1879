/**
 * Many rounds of ranging one after another. The sequence number has eight bits and a frame keeps its answer until
 * something else is written over it: which answers a read-back can take for answers to the current request.
 */
module NrngRuns {
  import opened Prelude
  import opened Slots
  import opened Nrng

  datatype Event = Ask(dst: nat, mask: nat) | Hear(frame: NFrame, requestTs: nat, responseTs: nat)

  ghost predicate Blank(b: Book) {
    0 < |b.frames| && forall p :: 0 <= p < |b.frames| ==> b.frames[p].code != FinalCode
  }

  ghost function Apply(b: Book, me: nat, e: Event): (b': Book)
    requires 0 < |b.frames|
    ensures |b'.frames| == |b.frames|
  {
    match e
    case Ask(dst, mask) => Asked(b, me, dst, mask)
    case Hear(f, requestTs, responseTs) => Nrng.Answered(b, me, f, requestTs, responseTs)
  }

  /** The state after a sequence of requests and received frames. */
  ghost function After(b: Book, me: nat, es: seq<Event>): (b': Book)
    requires 0 < |b.frames|
    ensures |b'.frames| == |b.frames|
  {
    if es == [] then b else Apply(After(b, me, es[..|es| - 1]), me, es[|es| - 1])
  }

  ghost function Asks(es: seq<Event>): nat {
    if es == [] then 0 else Asks(es[..|es| - 1]) + if es[|es| - 1].Ask? then 1 else 0
  }

  /** Under which request the answer was filed that frame p holds; None when a request, or nothing, was written there last. */
  ghost function FiledUnder(b: Book, me: nat, es: seq<Event>, p: nat): Option<nat>
    requires p < |b.frames|
  {
    if es == [] then None
    else
      var init, last := es[..|es| - 1], es[|es| - 1];
      var was := After(b, me, init);
      match last
      case Ask(_, _) => if p == After(b, me, es).idx % |b.frames| then None else FiledUnder(b, me, init, p)
      case Hear(f, _, _) =>
        if Counts(was, me, f) && p == (was.idx + f.slotId) % |b.frames| then Some(Asks(init))
        else FiledUnder(b, me, init, p)
  }

  /** The eight-bit number of the n-th request after the one numbered first. */
  ghost function Number(first: nat, n: nat): nat {
    (first + n) % POW8
  }

  /** The frame carries the sequence number of the request its answer was filed under, eight bits of it. */
  ghost predicate Tells(f: NFrame, under: Option<nat>, first: nat, asks: nat) {
    match under
    case None => f.code != FinalCode
    case Some(k) => k <= asks && f.code == FinalCode && f.seqNum == Number(first, k)
  }

  lemma NextNumber(first: nat, n: nat)
    ensures (Number(first, n) + 1) % POW8 == Number(first, n + 1)
  {
    Carried(first + n);
  }

  lemma Carried(x: nat)
    ensures (x % 0x100 + 1) % 0x100 == (x + 1) % 0x100
  {
  }

  lemma {:induction false} Numbered(b: Book, me: nat, es: seq<Event>)
    requires 0 < |b.frames| && b.seqNum < POW8
    ensures After(b, me, es).seqNum == Number(b.seqNum, Asks(es))
    decreases |es|
  {
    if es != [] {
      var init := es[..|es| - 1];
      Numbered(b, me, init);
      NextNumber(b.seqNum, Asks(init));
      hide Number, Nrng.Counts;
    }
  }

  lemma {:induction false} FramesTell(b: Book, me: nat, es: seq<Event>, p: nat)
    requires Blank(b) && b.seqNum < POW8 && p < |b.frames|
    ensures Tells(After(b, me, es).frames[p], FiledUnder(b, me, es, p), b.seqNum, Asks(es))
    decreases |es|
  {
    if es != [] {
      var init := es[..|es| - 1];
      FramesTell(b, me, init, p);
      Numbered(b, me, init);
    }
  }

  lemma SameNumber(first: nat, k: nat, n: nat)
    requires k <= n
    ensures (first + k) % 0x100 == (first + n) % 0x100 <==> (n - k) % 0x100 == 0
  {
  }

  /** Filed under a request with the number that request asks has: that one itself, or one a multiple of 256 before it. */
  ghost predicate Alike(under: Option<nat>, asks: nat) {
    under.Some? && under.value <= asks && (asks - under.value) % 0x100 == 0
  }

  /** Against which numbers a frame looks like an answer: that of the present request, or of a later one. */
  lemma TellsFresh(f: NFrame, under: Option<nat>, first: nat, filed: nat, asks: nat, number: nat)
    requires Tells(f, under, first, filed) && filed <= asks && number == Number(first, asks)
    ensures Fresh(f, number) <==> Alike(under, asks)
  {
    if under.Some? {
      SameNumber(first, under.value, asks);
    }
  }

  /** A frame looks like an answer to the current request exactly if its answer is some multiple of 256 requests old, none included. */
  lemma {:induction false} FreshIff(b: Book, me: nat, es: seq<Event>, p: nat)
    requires Blank(b) && b.seqNum < POW8 && p < |b.frames|
    ensures var now := After(b, me, es);
      Fresh(now.frames[p], now.seqNum) <==> Alike(FiledUnder(b, me, es, p), Asks(es))
  {
    FramesTell(b, me, es, p);
    Numbered(b, me, es);
    var now, under, asks := After(b, me, es), FiledUnder(b, me, es, p), Asks(es);
    hide After, FiledUnder, Asks, Tells, Fresh, Blank, Alike, Number;
    TellsFresh(now.frames[p], under, b.seqNum, asks, asks, now.seqNum);
  }

  lemma {:induction false} NextFreshIff(b: Book, me: nat, es: seq<Event>, p: nat, number: nat)
    requires Blank(b) && b.seqNum < POW8 && p < |b.frames| && number == (After(b, me, es).seqNum + 1) % POW8
    ensures Fresh(After(b, me, es).frames[p], number) <==> Alike(FiledUnder(b, me, es, p), Asks(es) + 1)
    ensures Asks(es) < 255 ==> !Fresh(After(b, me, es).frames[p], number)
  {
    FramesTell(b, me, es, p);
    Numbered(b, me, es);
    NextNumber(b.seqNum, Asks(es));
    var now, under, asks := After(b, me, es), FiledUnder(b, me, es, p), Asks(es);
    hide After, FiledUnder, Asks, Tells, Fresh, Blank, Alike, Number;
    TellsFresh(now.frames[p], under, b.seqNum, asks, asks + 1, number);
    if Alike(under, asks + 1) {
      FiledBefore(b, me, es, p);
      AlikeFiled(under, asks + 1);
      NotYet(under, asks + 1);
    }
  }

  lemma {:induction false} FiledBefore(b: Book, me: nat, es: seq<Event>, p: nat)
    requires p < |b.frames|
    ensures FiledUnder(b, me, es, p).Some? ==> FiledUnder(b, me, es, p).value <= Asks(es)
    decreases |es|
  {
    if es != [] {
      FiledBefore(b, me, es[..|es| - 1], p);
      hide After, Counts;
    }
  }

  lemma NotYet(under: Option<nat>, asks: nat)
    requires Alike(under, asks) && under.value < asks
    ensures asks >= 256
  {
  }

  /** A round begins clean exactly if no frame holds an answer 255 requests old, or that plus a multiple of 256; so do the first 255. */
  lemma {:induction false} CleanIff(b: Book, me: nat, es: seq<Event>)
    requires Blank(b) && b.seqNum < POW8
    ensures NoneFresh(After(b, me, es)) <==> forall p: nat :: p < |b.frames| ==> !Alike(FiledUnder(b, me, es, p), Asks(es) + 1)
    ensures Asks(es) < 255 ==> NoneFresh(After(b, me, es))
  {
    BlankHasFrames(b);
    hide After, FiledUnder, Asks, Fresh, Alike, Blank, Number;
    var now := After(b, me, es);
    var number := (now.seqNum + 1) % POW8;
    forall p: nat | p < |b.frames| && NoneFresh(now)
      ensures !Alike(FiledUnder(b, me, es, p), Asks(es) + 1)
    {
      NextFreshIff(b, me, es, p, number);
      assert !Fresh(now.frames[p], number);
    }
    if !NoneFresh(now) {
      var p: nat :| p < |now.frames| && Fresh(now.frames[p], number);
      NextFreshIff(b, me, es, p, number);
    }
  }

  lemma BlankHasFrames(b: Book)
    requires Blank(b)
    ensures 0 < |b.frames|
  {
  }

  lemma AlikeFiled(under: Option<nat>, asks: nat)
    requires Alike(under, asks)
    ensures under.Some?
  {
  }

  /** The read-back could take frame p for an answer to the current request, but it answers an earlier one. */
  ghost predicate Stale(b: Book, me: nat, es: seq<Event>, p: nat)
    requires p < |b.frames|
  {
    Fresh(After(b, me, es).frames[p], After(b, me, es).seqNum) && FiledUnder(b, me, es, p) != Some(Asks(es))
  }

  /** That happens exactly when the answer is 256 requests old, or a multiple, and nothing was written over it; never before the 256th request. */
  lemma {:induction false} StaleIff(b: Book, me: nat, es: seq<Event>, p: nat)
    requires Blank(b) && b.seqNum < POW8 && p < |b.frames|
    ensures var under := FiledUnder(b, me, es, p);
      Stale(b, me, es, p) <==> Alike(under, Asks(es)) && under.value < Asks(es)
    ensures Stale(b, me, es, p) ==> Asks(es) >= 256
  {
    FreshIff(b, me, es, p);
    var under := FiledUnder(b, me, es, p);
    hide After, FiledUnder, Asks, Fresh;
    if Alike(under, Asks(es)) && under.value < Asks(es) {
      NotYet(under, Asks(es));
    }
  }

  // ---------------------------------------------------------------- what is read back

  lemma {:induction false} BitsWithin(mask: nat, k: nat, s: nat)
    requires mask < Pow2(k) && Bit(mask, s)
    ensures s < k
    decreases k
  {
    if k == 0 {
      ZeroHasNoBit(s);
    } else if s > 0 {
      BitsWithin(mask / 2, k - 1, s - 1);
    }
  }

  /** The answers a read-back of this state finds, by slot. */
  ghost function Reports(b: Book): map<nat, NFrame>
    requires 0 < |b.frames|
  {
    map s: nat | s < 16 && Bit(b.mask, s) && Fresh(b.frames[Place(|b.frames|, b.idx, b.mask, s)], b.seqNum)
      :: b.frames[Place(|b.frames|, b.idx, b.mask, s)]
  }

  /** The state is one that AnsweredMask and ReadBack accept, with these answers. */
  lemma HoldsReports(b: Book)
    requires 0 < |b.frames| && PopCount(b.mask) <= |b.frames| && b.mask < POW16
    ensures Holds(b.frames, b.idx, b.seqNum, b.mask, Reports(b))
  {
    WordSize();
    hide PopCount, Place, Fresh, Bit;
    forall s: nat | Bit(b.mask, s)
      ensures HoldsOne(b.frames, b.idx, b.seqNum, b.mask, Reports(b), s)
    {
      BitsWithin(b.mask, 16, s);
    }
  }

  /**
   * After any requests and frames, a slot is read back exactly if it is requested and the answer in its frame was
   * filed under this request, or one a multiple of 256 before it.
   */
  lemma {:induction false} ReadBackIff(b: Book, me: nat, es: seq<Event>, s: nat)
    requires Blank(b) && b.seqNum < POW8 && After(b, me, es).mask < POW16
    ensures var now := After(b, me, es);
      var under := FiledUnder(b, me, es, Place(|b.frames|, now.idx, now.mask, s));
      s in Reports(now) <==> Bit(now.mask, s) && Alike(under, Asks(es))
  {
    var now := After(b, me, es);
    FreshIff(b, me, es, Place(|b.frames|, now.idx, now.mask, s));
    WordSize();
    hide After, FiledUnder, Asks, Fresh, Bit, Pow2, Place, Alike;
    if Bit(now.mask, s) {
      BitsWithin(now.mask, 16, s);
    }
  }

  // ----------------------------------------------------------------- a run in which it happens

  ghost function Again(n: nat): seq<Event> {
    if n == 0 then [Ask(0, 3), Hear(NFrame(ResponseCode, 1, 2, 1, 1, 0, 0, 0, 0), 0, 0)]
    else Again(n - 1) + [Ask(0, 3)]
  }

  ghost function NoFrames(): (b: Book)
    ensures Blank(b)
  {
    var f := NFrame(OtherCode, 0, 0, 0, 0, 0, 0, 0, 0);
    Book([f, f], 0, 0, 0)
  }

  /** One more event. */
  lemma {:induction false} Snoc(b: Book, me: nat, es: seq<Event>, e: Event, p: nat)
    requires p < |b.frames|
    ensures var was, more := After(b, me, es), es + [e];
      && After(b, me, more) == Apply(was, me, e)
      && Asks(more) == Asks(es) + (if e.Ask? then 1 else 0)
      && FiledUnder(b, me, more, p) ==
           match e
           case Ask(_, _) => if p == Apply(was, me, e).idx % |b.frames| then None else FiledUnder(b, me, es, p)
           case Hear(f, _, _) =>
             if Counts(was, me, f) && p == (was.idx + f.slotId) % |b.frames| then Some(Asks(es)) else FiledUnder(b, me, es, p)
  {
    var more := es + [e];
    assert more[..|more| - 1] == es && more[|more| - 1] == e;
    hide Apply;
  }

  lemma AskTwo(b: Book)
    requires |b.frames| == 2 && b.idx < 1000 && b.idx % 2 == 0
    ensures var b' := Asked(b, 1, 0, 3);
      b'.idx == b.idx + 2 && b'.idx % 2 == 0 && b'.mask == 3 && b'.seqNum == (b.seqNum + 1) % POW8
  {
    assert PopCount(3) == 2;
    hide PopCount;
  }

  lemma FirstAnswer()
    ensures var es := Again(0);
      && Asks(es) == 1 && FiledUnder(NoFrames(), 1, es, 1) == Some(1)
      && After(NoFrames(), 1, es).idx == 2 && After(NoFrames(), 1, es).mask == 3
  {
    var f := NFrame(ResponseCode, 1, 2, 1, 1, 0, 0, 0, 0);
    assert After(NoFrames(), 1, []) == NoFrames() && Asks([]) == 0;
    Snoc(NoFrames(), 1, [], Ask(0, 3), 1);
    Snoc(NoFrames(), 1, [] + [Ask(0, 3)], Hear(f, 0, 0), 1);
    assert Again(0) == [] + [Ask(0, 3)] + [Hear(f, 0, 0)];
    hide After, Asks, FiledUnder, Again;
    AskTwo(NoFrames());
    hide Asked;
  }

  /** Two slots are requested over and over; the one of rank 1 answers the first time only. */
  lemma {:induction false} AnswerStays(n: nat)
    requires n <= 256
    ensures Asks(Again(n)) == n + 1 && FiledUnder(NoFrames(), 1, Again(n), 1) == Some(1)
    ensures After(NoFrames(), 1, Again(n)).idx == 2 * n + 2 && After(NoFrames(), 1, Again(n)).mask == 3
    decreases n
  {
    hide After, Asks, FiledUnder;
    if n == 0 {
      FirstAnswer();
    } else {
      AnswerStays(n - 1);
      Snoc(NoFrames(), 1, Again(n - 1), Ask(0, 3), 1);
      AskTwo(After(NoFrames(), 1, Again(n - 1)));
      hide Asked;
    }
  }

  /** The answer to the first request is read back 256 requests later, though the slot has been silent since. */
  lemma StaleByARun()
    ensures var es := Again(256);
      && Asks(es) == 257 && FiledUnder(NoFrames(), 1, es, 1) == Some(1)
      && 1 in Reports(After(NoFrames(), 1, es))
  {
    var n := 256;
    AnswerStays(n);
    hide Again, Asks, FiledUnder, After;
    var es := Again(n);
    var now := After(NoFrames(), 1, es);
    assert Rank(3, 1) == 1 && Bit(3, 1);
    assert Place(2, now.idx, 3, 1) == 1;
    ReadBackIff(NoFrames(), 1, es, 1);
  }
}
