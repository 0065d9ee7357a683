/**
 * From the depth handler of every subscribed pair, through a bounded channel that drops when full,
 * to the aggregator that serves the latest top of book. All interleavings of producer and consumer.
 */
module BookFeed {
  import opened Common
  import opened OrderBook
  import opened TopLevels
  import opened Convergence
  import opened PairStream
  import opened Recovery
  import opened Reconstructor

  const CHANNEL_CAPACITY := 64
  const EMIT_DEPTH := 20

  datatype BookUpdate = BookUpdate(pair: string, ts: nat, bids: seq<Level>, asks: seq<Level>)

  /** None stands for the zero price of a side without levels. */
  datatype TopOfBook = TopOfBook(pair: string, bid: Option<string>, ask: Option<string>, ts: nat)

  // ----- Routing a stream name to its pair -----

  function IndexOf(s: string, c: char): (r: Option<nat>)
    ensures r.None? <==> c !in s
    ensures r.Some? ==> r.value < |s| && s[r.value] == c && c !in s[..r.value]
  {
    if s == "" then None
    else if s[0] == c then Some(0)
    else
      var rest := IndexOf(s[1..], c);
      assert rest.Some? ==> s[..rest.value + 1] == [s[0]] + s[1..][..rest.value];
      if rest.None? then None else Some(rest.value + 1)
  }

  function StreamToPair(stream: string): string {
    match IndexOf(stream, '@')
    case Some(i) => if i > 0 then stream[..i] else stream
    case None => stream
  }

  function LowerChar(c: char): char {
    if 'A' <= c <= 'Z' then c - 'A' + 'a' else c
  }

  function UpperChar(c: char): char {
    if 'a' <= c <= 'z' then c - 'a' + 'A' else c
  }

  /** strings.ToLower and strings.ToUpper on ASCII letters. */
  function Lower(s: string): (r: string)
    ensures |r| == |s| && forall i :: 0 <= i < |s| ==> r[i] == LowerChar(s[i])
  {
    seq(|s|, i requires 0 <= i < |s| => LowerChar(s[i]))
  }

  function Upper(s: string): (r: string)
    ensures |r| == |s| && forall i :: 0 <= i < |s| ==> r[i] == UpperChar(s[i])
  {
    seq(|s|, i requires 0 <= i < |s| => UpperChar(s[i]))
  }

  /** Whatever the case a name comes in, it leads to the same key and the same published name. */
  lemma CaseDoesNotMatter(s: string)
    ensures Lower(Lower(s)) == Lower(s) && Upper(Upper(s)) == Upper(s)
    ensures Lower(Upper(s)) == Lower(s) && Upper(Lower(s)) == Upper(s)
  {
  }

  predicate IsLetter(c: char) {
    'A' <= c <= 'Z' || 'a' <= c <= 'z'
  }

  /** The two names differ at most in the case of letters. */
  predicate SameButCase(a: string, b: string) {
    |a| == |b| && forall i :: 0 <= i < |a| ==>
      a[i] == b[i] || (IsLetter(a[i]) && IsLetter(b[i]) && (a[i] as int == b[i] as int + 32 || b[i] as int == a[i] as int + 32))
  }

  /** Two names share a reconstructor, and a published name, exactly if they differ at most in case. */
  lemma SameKeyExactly(a: string, b: string)
    ensures Lower(a) == Lower(b) <==> SameButCase(a, b)
    ensures Upper(a) == Upper(b) <==> SameButCase(a, b)
    ensures forall i :: 0 <= i < |a| ==> !('A' <= Lower(a)[i] <= 'Z') && !('a' <= Upper(a)[i] <= 'z')
  {
    if Lower(a) == Lower(b) {
      assert forall i :: 0 <= i < |a| ==> Lower(a)[i] == Lower(b)[i];
    }
    if Upper(a) == Upper(b) {
      assert forall i :: 0 <= i < |a| ==> Upper(a)[i] == Upper(b)[i];
    }
  }

  /** A stream names what stands before its first '@', or itself if that is nothing or there is no '@'. */
  lemma StreamToPairExactly(name: string, rest: string)
    ensures '@' !in name && name != "" ==> StreamToPair(name + "@" + rest) == name
    ensures '@' !in name ==> StreamToPair(name) == name
    ensures StreamToPair("@" + rest) == "@" + rest
  {
    var stream := name + "@" + rest;
    if '@' !in name && name != "" {
      assert stream[|name|] == '@' && forall i :: 0 <= i < |name| ==> stream[i] == name[i];
      assert forall j :: |name| < j <= |stream| ==> stream[..j][|name|] == '@';
      assert stream[..|name|] == name;
    }
    var bare := "@" + rest;
    assert bare[0] == '@';
    assert forall j :: 0 < j <= |bare| ==> bare[..j][0] == '@';
  }

  function StreamOf(pair: string): string {
    Lower(pair) + "@depth"
  }

  lemma LowerKeepsAt(pair: string)
    ensures '@' in Lower(pair) <==> '@' in pair
  {
    if '@' in pair {
      var i :| 0 <= i < |pair| && pair[i] == '@';
      assert Lower(pair)[i] == '@';
    }
  }

  /** The stream subscribed for a pair leads back to its key exactly if the name is not empty and has no '@'. */
  lemma StreamRoundTrip(pair: string)
    ensures Lower(StreamToPair(StreamOf(pair))) == Lower(pair) <==> pair != "" && '@' !in pair
  {
    var key, stream := Lower(pair), StreamOf(pair);
    LowerKeepsAt(pair);
    CaseDoesNotMatter(pair);
    assert stream[|key|] == '@';
    assert forall j :: |key| < j <= |stream| ==> stream[..j][|key|] == '@';
    if '@' in key {
      var j :| 0 <= j < |key| && key[j] == '@';
      assert stream[j] == '@';
      assert forall k :: j < k <= |stream| ==> stream[..k][j] == '@';
    } else {
      assert stream[..|key|] == key;
    }
  }

  // ----- One step of the handler and of the emitter -----

  ghost function UpdateOf(pair: string, book: Book, ts: nat): BookUpdate {
    BookUpdate(Upper(pair), ts, Top(book.bids, true, EMIT_DEPTH), Top(book.asks, false, EMIT_DEPTH))
  }

  /** The non-blocking send: a half-empty book and a full channel both lose the update. */
  function Send(out: seq<BookUpdate>, update: BookUpdate): seq<BookUpdate> {
    if update.bids != [] && update.asks != [] && |out| < CHANNEL_CAPACITY then out + [update] else out
  }

  datatype Feed = Feed(books: map<string, BookState>, out: seq<BookUpdate>)

  predicate Emits(st: BookState, ev: Event) {
    match ev
    case Initial(outcome) => outcome.Some?
    case Depth(id, _, _) => Classify(st.lastSeq, id).Accepted?
  }

  /** The keys of the reconstructors, one per lower-cased name. */
  function Keys(pairs: seq<string>): set<string> {
    set p | p in pairs :: Lower(p)
  }

  function EmptyBooks(pairs: seq<string>): map<string, BookState> {
    map key | key in Keys(pairs) :: BookState(EMPTY_BOOK, 0)
  }

  /** An event for the pair with this key; unknown pairs are ignored. */
  ghost function PairStep(feed: Feed, pair: string, ev: Event, ts: nat): Feed {
    if pair !in feed.books then feed
    else
      var st := Handle(feed.books[pair], ev);
      Feed(feed.books[pair := st],
           if Emits(feed.books[pair], ev) then Send(feed.out, UpdateOf(pair, st.book, ts)) else feed.out)
  }

  function TopOf(update: BookUpdate): TopOfBook {
    TopOfBook(update.pair,
              if update.bids != [] then Some(update.bids[0].price) else None,
              if update.asks != [] then Some(update.asks[0].price) else None,
              update.ts)
  }

  // ----- The mutable objects -----

  class Subscription {
    const recons: map<string, BookReconstructor>
    var out: seq<BookUpdate>

    ghost predicate Valid()
      reads this
    {
      forall p, q :: p in recons && q in recons && p != q ==> recons[p] != recons[q]
    }

    ghost function State(): Feed
      reads this, recons.Values
    {
      Feed(map p | p in recons :: recons[p].State(), out)
    }

    constructor (pairs: seq<string>)
      ensures Valid() && recons.Keys == Keys(pairs)
      ensures forall key :: key in recons ==> fresh(recons[key])
      ensures State() == Feed(EmptyBooks(pairs), [])
    {
      var made: map<string, BookReconstructor> := map[];
      for i := 0 to |pairs|
        invariant made.Keys == Keys(pairs[..i])
        invariant forall key :: key in made ==> fresh(made[key]) && made[key].State() == BookState(EMPTY_BOOK, 0)
        invariant forall p, q :: p in made && q in made && p != q ==> made[p] != made[q]
      {
        var r := new BookReconstructor();
        assert pairs[..i + 1] == pairs[..i] + [pairs[i]];
        made := made[Lower(pairs[i]) := r];
      }
      assert pairs[..|pairs|] == pairs;
      recons := made;
      out := [];
    }

    /** Only an empty list of pairs is refused. */
    static method SubscribeBook(pairs: seq<string>) returns (r: Option<Subscription>)
      ensures r.None? <==> pairs == []
      ensures r.Some? ==> r.value.Valid() && r.value.State() == Feed(EmptyBooks(pairs), [])
    {
      if |pairs| == 0 {
        return None;
      }
      var s := new Subscription(pairs);
      return Some(s);
    }

    /** The update goes out under the upper-cased name, whatever case the caller has it in. */
    method EmitUpdate(pair: string, ts: nat)
      requires Valid() && Lower(pair) in recons
      modifies `out
      ensures Valid()
      ensures out == Send(old(out), UpdateOf(Lower(pair), recons[Lower(pair)].State().book, ts))
    {
      CaseDoesNotMatter(pair);
      var bids, asks := recons[Lower(pair)].TopN(EMIT_DEPTH);
      if |bids| > 0 && |asks| > 0 && |out| < CHANNEL_CAPACITY {
        out := out + [BookUpdate(Upper(pair), ts, bids, asks)];
      }
    }

    lemma BooksUpdated(books: map<string, BookState>, pair: string, st: BookState)
      requires pair in recons && books.Keys == recons.Keys && recons[pair].State() == st
      requires forall p :: p in recons && p != pair ==> recons[p].State() == books[p]
      ensures State().books == books[pair := st]
    {
    }

    /** The snapshot request of the start-up phase. */
    method Start(pair: string, refresh: Option<Snapshot>, ts: nat)
      requires Valid() && Lower(pair) in recons
      modifies this`out, recons.Values
      ensures Valid() && State() == PairStep(old(State()), Lower(pair), Initial(refresh), ts)
    {
      var key := Lower(pair);
      ghost var before := State().books;
      if refresh.Some? {
        recons[key].ApplySnapshot(refresh.value.levels);
        BooksUpdated(before, key, Handle(before[key], Initial(refresh)));
        EmitUpdate(pair, ts);
      }
      BooksUpdated(before, key, Handle(before[key], Initial(refresh)));
    }

    /** The part of the message handler that concerns the one reconstructor. */
    static method ApplyOrRefresh(r: BookReconstructor, id: int, diff: Diff, refresh: Option<Snapshot>) returns (emit: bool)
      modifies r
      ensures emit <==> Emits(old(r.State()), Depth(id, diff, refresh))
      ensures emit <==> old(r.lastSeq) == 0 || id == old(r.lastSeq) + 1
      ensures r.State() == Handle(old(r.State()), Depth(id, diff, refresh))
    {
      var ok, gap := r.ApplyDiff(id, diff);
      if gap {
        r.MarkGap();
        if refresh.Some? {
          r.ApplySnapshot(refresh.value.levels);
        }
        return false;
      }
      return ok;
    }

    method Dispatch(pair: string, id: int, diff: Diff, refresh: Option<Snapshot>, ts: nat)
      requires Valid() && Lower(pair) in recons
      modifies this`out, recons.Values
      ensures Valid() && State() == PairStep(old(State()), Lower(pair), Depth(id, diff, refresh), ts)
    {
      var key := Lower(pair);
      ghost var before := State().books;
      ghost var ev := Depth(id, diff, refresh);
      ghost var st := Handle(before[key], ev);
      var emit := ApplyOrRefresh(recons[key], id, diff, refresh);
      assert emit == Emits(before[key], ev) && recons[key].State() == st;
      if emit {
        EmitUpdate(pair, ts);
        assert out == Send(old(out), UpdateOf(key, st.book, ts));
      }
      BooksUpdated(before, key, st);
    }

    /** The message handler: the stream names the pair in any case, and an unknown stream is ignored. */
    method OnMessage(stream: string, id: int, diff: Diff, refresh: Option<Snapshot>, ts: nat)
      requires Valid()
      modifies this`out, recons.Values
      ensures Valid()
      ensures State() == PairStep(old(State()), Lower(StreamToPair(stream)), Depth(id, diff, refresh), ts)
    {
      var pair := StreamToPair(stream);
      if Lower(pair) in recons {
        Dispatch(pair, id, diff, refresh, ts);
      }
    }
  }

  function StoreTop(latest: map<string, TopOfBook>, update: BookUpdate): map<string, TopOfBook> {
    latest[update.pair := TopOf(update)]
  }

  function PublishAll(latest: map<string, TopOfBook>, updates: seq<BookUpdate>): map<string, TopOfBook> {
    if updates == [] then latest
    else StoreTop(PublishAll(latest, updates[..|updates| - 1]), updates[|updates| - 1])
  }

  class BookAggregator {
    var latest: map<string, TopOfBook>

    constructor ()
      ensures latest == map[]
    {
      latest := map[];
    }

    /** Drains the updates the channel hands over, in order. */
    method Consume(updates: seq<BookUpdate>)
      modifies this
      ensures latest == PublishAll(old(latest), updates)
    {
      for i := 0 to |updates|
        invariant latest == PublishAll(old(latest), updates[..i])
      {
        assert updates[..i + 1][..i] == updates[..i];
        var upd := updates[i];
        var bid, ask := None, None;
        if |upd.bids| > 0 {
          bid := Some(upd.bids[0].price);
        }
        if |upd.asks| > 0 {
          ask := Some(upd.asks[0].price);
        }
        latest := latest[upd.pair := TopOfBook(upd.pair, bid, ask, upd.ts)];
      }
      assert updates[..|updates|] == updates;
    }

    method Get(pair: string) returns (r: Option<TopOfBook>)
      ensures r == Lookup(latest, pair)
    {
      r := if pair in latest then Some(latest[pair]) else None;
    }
  }

  // ----- Producer and consumer interleaved -----

  /** taken is an update the consumer has received and not yet stored. */
  datatype System = System(now: nat, feed: Feed, taken: Option<BookUpdate>, latest: map<string, TopOfBook>)

  datatype Action =
    | Produce(pair: string, ev: Event)
    | Receive
    | Publish

  ghost function Step(s: System, a: Action): System {
    var t := s.(now := s.now + 1);
    match a
    case Produce(pair, ev) => t.(feed := PairStep(s.feed, pair, ev, t.now))
    case Receive =>
      if s.taken.None? && s.feed.out != [] then
        t.(taken := Some(s.feed.out[0]), feed := s.feed.(out := s.feed.out[1..]))
      else t
    case Publish =>
      if s.taken.Some? then
        t.(taken := None, latest := StoreTop(s.latest, s.taken.value))
      else t
  }

  ghost function RunSystem(pairs: seq<string>, acts: seq<Action>): System {
    if acts == [] then System(0, Feed(EmptyBooks(pairs), []), None, map[])
    else Step(RunSystem(pairs, acts[..|acts| - 1]), acts[|acts| - 1])
  }

  // ----- Pairs do not interfere -----

  function EventsOf(acts: seq<Action>, pair: string): seq<Event> {
    if acts == [] then []
    else
      var rest := EventsOf(acts[..|acts| - 1], pair);
      var last := acts[|acts| - 1];
      if last.Produce? && last.pair == pair then rest + [last.ev] else rest
  }

  /** Each pair's book is what its own events alone make of it; the channel and the consumer never touch it. */
  lemma {:induction false} PairsAreIndependent(pairs: seq<string>, acts: seq<Action>, pair: string)
    requires pair in Keys(pairs)
    ensures RunSystem(pairs, acts).feed.books.Keys == Keys(pairs)
    ensures RunSystem(pairs, acts).feed.books[pair] == Run(EventsOf(acts, pair))
  {
    if acts != [] {
      var before, last := acts[..|acts| - 1], acts[|acts| - 1];
      PairsAreIndependent(pairs, before, pair);
      if last.Produce? && last.pair == pair {
        var evs := EventsOf(acts, pair);
        assert evs[..|evs| - 1] == EventsOf(before, pair);
      }
    }
  }

  lemma {:induction false} KeysStay(pairs: seq<string>, acts: seq<Action>)
    ensures RunSystem(pairs, acts).feed.books.Keys == Keys(pairs)
  {
    if acts != [] {
      KeysStay(pairs, acts[..|acts| - 1]);
    }
  }

  lemma KeysAreLower(pairs: seq<string>, key: string)
    requires key in Keys(pairs)
    ensures Lower(key) == key && Lower(Upper(key)) == key
  {
    var p :| p in pairs && key == Lower(p);
    CaseDoesNotMatter(p);
    CaseDoesNotMatter(key);
  }

  // ----- What the aggregator serves -----

  /** The best price of each side of a book that has both. */
  ghost predicate IsTopOf(top: TopOfBook, book: Book) {
    && top.bid.Some? && top.bid.value in book.bids
    && (forall k :: k in book.bids && k != top.bid.value ==> Before(top.bid.value, k, true))
    && top.ask.Some? && top.ask.value in book.asks
    && (forall k :: k in book.asks && k != top.ask.value ==> Before(top.ask.value, k, false))
  }

  /** Served under an upper-case name, the pair's reconstructor held a book with this top after the first top.ts actions. */
  ghost predicate Held(pairs: seq<string>, acts: seq<Action>, top: TopOfBook) {
    && 1 <= top.ts <= |acts|
    && top.pair == Upper(top.pair)
    && Lower(top.pair) in RunSystem(pairs, acts[..top.ts]).feed.books
    && IsTopOf(top, RunSystem(pairs, acts[..top.ts]).feed.books[Lower(top.pair)].book)
  }

  /** Emission times rise from the served tops through the update in hand to the end of the channel. */
  predicate RisingParts(now: nat, out: seq<BookUpdate>, taken: Option<BookUpdate>, latest: map<string, TopOfBook>) {
    && (forall i, j :: 0 <= i < j < |out| ==> out[i].ts < out[j].ts)
    && (forall i :: 0 <= i < |out| ==> out[i].ts <= now)
    && (taken.Some? ==> taken.value.ts <= now)
    && (taken.Some? ==> forall i :: 0 <= i < |out| ==> taken.value.ts < out[i].ts)
    && (forall p :: p in latest ==> latest[p].pair == p && latest[p].ts <= now)
    && (forall p, i :: p in latest && 0 <= i < |out| ==> latest[p].ts < out[i].ts)
    && (forall p :: p in latest && taken.Some? ==> latest[p].ts < taken.value.ts)
  }

  predicate Rising(s: System) {
    RisingParts(s.now, s.feed.out, s.taken, s.latest)
  }

  predicate Advances(s: System, t: System) {
    forall p :: p in s.latest ==> p in t.latest && s.latest[p].ts <= t.latest[p].ts
  }

  lemma RisingAppend(now: nat, out: seq<BookUpdate>, taken: Option<BookUpdate>, latest: map<string, TopOfBook>, u: BookUpdate)
    requires RisingParts(now, out, taken, latest) && u.ts == now + 1
    ensures RisingParts(now + 1, out + [u], taken, latest)
  {
  }

  lemma ProduceRising(s: System, pair: string, ev: Event)
    requires Rising(s)
    ensures Rising(Step(s, Produce(pair, ev)))
  {
    if pair in s.feed.books {
      RisingAppend(s.now, s.feed.out, s.taken, s.latest, UpdateOf(pair, Handle(s.feed.books[pair], ev).book, s.now + 1));
    }
  }

  lemma ReceiveRising(s: System)
    requires Rising(s)
    ensures Rising(Step(s, Receive))
  {
  }

  lemma PublishRising(s: System)
    requires Rising(s)
    ensures Rising(Step(s, Publish)) && Advances(s, Step(s, Publish))
  {
  }

  lemma StepRising(s: System, a: Action)
    requires Rising(s)
    ensures Rising(Step(s, a)) && Advances(s, Step(s, a))
  {
    match a {
      case Produce(pair, ev) => ProduceRising(s, pair, ev);
      case Receive => ReceiveRising(s);
      case Publish => PublishRising(s);
    }
  }

  lemma {:induction false} RunRising(pairs: seq<string>, acts: seq<Action>)
    ensures Rising(RunSystem(pairs, acts)) && RunSystem(pairs, acts).now == |acts|
  {
    if acts != [] {
      RunRising(pairs, acts[..|acts| - 1]);
      StepRising(RunSystem(pairs, acts[..|acts| - 1]), acts[|acts| - 1]);
    }
  }

  /** Everything on its way to a reader, and everything a reader can get, was held. */
  ghost predicate AllHeld(pairs: seq<string>, acts: seq<Action>, out: seq<BookUpdate>, taken: Option<BookUpdate>,
                          latest: map<string, TopOfBook>)
  {
    && (forall i :: 0 <= i < |out| ==> Held(pairs, acts, TopOf(out[i])))
    && (taken.Some? ==> Held(pairs, acts, TopOf(taken.value)))
    && (forall p :: p in latest ==> Held(pairs, acts, latest[p]))
  }

  lemma HeldLater(pairs: seq<string>, acts: seq<Action>, a: Action, top: TopOfBook)
    requires Held(pairs, acts, top)
    ensures Held(pairs, acts + [a], top)
  {
    assert (acts + [a])[..top.ts] == acts[..top.ts];
  }

  lemma EmittedTop(pair: string, book: Book, ts: nat)
    requires UpdateOf(pair, book, ts).bids != [] && UpdateOf(pair, book, ts).asks != []
    ensures IsTopOf(TopOf(UpdateOf(pair, book, ts)), book)
  {
    TopHead(book.bids, true, EMIT_DEPTH);
    TopHead(book.asks, false, EMIT_DEPTH);
  }

  lemma EmittedIsHeld(pairs: seq<string>, acts: seq<Action>, pair: string, ev: Event)
    requires RunSystem(pairs, acts).now == |acts|
    ensures var out, out' := RunSystem(pairs, acts).feed.out, Step(RunSystem(pairs, acts), Produce(pair, ev)).feed.out;
      out' == out || (out' == out + [out'[|out|]] && Held(pairs, acts + [Produce(pair, ev)], TopOf(out'[|out|])))
  {
    var acts' := acts + [Produce(pair, ev)];
    assert acts'[..|acts|] == acts && acts'[..|acts'|] == acts';
    var s' := Step(RunSystem(pairs, acts), Produce(pair, ev));
    if s'.feed.out != RunSystem(pairs, acts).feed.out {
      KeysStay(pairs, acts);
      KeysAreLower(pairs, pair);
      CaseDoesNotMatter(pair);
      EmittedTop(pair, s'.feed.books[pair].book, |acts'|);
    }
  }

  lemma AllHeldLater(pairs: seq<string>, acts: seq<Action>, a: Action, s: System)
    requires AllHeld(pairs, acts, s.feed.out, s.taken, s.latest)
    ensures AllHeld(pairs, acts + [a], s.feed.out, s.taken, s.latest)
  {
    forall top | Held(pairs, acts, top) ensures Held(pairs, acts + [a], top) {
      HeldLater(pairs, acts, a, top);
    }
  }

  /** What the consumer moves was held already. */
  lemma ConsumerHeld(pairs: seq<string>, acts: seq<Action>, s: System, a: Action)
    requires AllHeld(pairs, acts, s.feed.out, s.taken, s.latest) && !a.Produce?
    ensures AllHeld(pairs, acts, Step(s, a).feed.out, Step(s, a).taken, Step(s, a).latest)
  {
  }

  lemma ProduceHeld(pairs: seq<string>, acts: seq<Action>, pair: string, ev: Event)
    requires var s := RunSystem(pairs, acts); AllHeld(pairs, acts, s.feed.out, s.taken, s.latest)
    ensures var s := Step(RunSystem(pairs, acts), Produce(pair, ev));
      AllHeld(pairs, acts + [Produce(pair, ev)], s.feed.out, s.taken, s.latest)
  {
    AllHeldLater(pairs, acts, Produce(pair, ev), RunSystem(pairs, acts));
    RunRising(pairs, acts);
    EmittedIsHeld(pairs, acts, pair, ev);
  }

  lemma {:induction false} RunHeld(pairs: seq<string>, acts: seq<Action>)
    ensures var s := RunSystem(pairs, acts); AllHeld(pairs, acts, s.feed.out, s.taken, s.latest)
  {
    if acts != [] {
      var before, a := acts[..|acts| - 1], acts[|acts| - 1];
      var s := RunSystem(pairs, before);
      RunHeld(pairs, before);
      assert acts == before + [a];
      if a.Produce? {
        ProduceHeld(pairs, before, a.pair, a.ev);
      } else {
        AllHeldLater(pairs, before, a, s);
        ConsumerHeld(pairs, acts, s, a);
      }
    }
  }

  lemma {:induction false} LatestOnlyAdvances(pairs: seq<string>, acts: seq<Action>, m: nat, pair: string)
    requires m <= |acts| && pair in RunSystem(pairs, acts[..m]).latest
    ensures pair in RunSystem(pairs, acts).latest
    ensures RunSystem(pairs, acts[..m]).latest[pair].ts <= RunSystem(pairs, acts).latest[pair].ts
  {
    if m == |acts| {
      assert acts[..m] == acts;
    } else {
      var before := acts[..|acts| - 1];
      assert before[..m] == acts[..m];
      LatestOnlyAdvances(pairs, before, m, pair);
      RunRising(pairs, before);
      StepRising(RunSystem(pairs, before), acts[|acts| - 1]);
    }
  }

  /**
   * Two reads of one pair: each returns the top of a book its reconstructor held with both sides
   * present, and the second is never older than the first, however many updates were dropped.
   */
  lemma ServedTopNeverGoesBack(pairs: seq<string>, acts: seq<Action>, m: nat, n: nat, pair: string)
    requires m <= n <= |acts| && pair in RunSystem(pairs, acts[..m]).latest
    ensures pair in RunSystem(pairs, acts[..n]).latest
    ensures var first, second := RunSystem(pairs, acts[..m]).latest[pair], RunSystem(pairs, acts[..n]).latest[pair];
      && Held(pairs, acts[..m], first) && Held(pairs, acts[..n], second)
      && first.pair == pair && second.pair == pair && first.ts <= second.ts
  {
    assert acts[..n][..m] == acts[..m];
    RunHeld(pairs, acts[..m]);
    RunHeld(pairs, acts[..n]);
    RunRising(pairs, acts[..m]);
    RunRising(pairs, acts[..n]);
    LatestOnlyAdvances(pairs, acts[..n], m, pair);
  }

  /**
   * End to end: if the pair's handler was in step at update n when a served top was emitted, which the
   * message and snapshot ids alone tell, the served prices are the best of the venue's book after n.
   */
  lemma ServedTopIsTheVenues(pairs: seq<string>, acts: seq<Action>, pair: string, history: seq<Diff>, n: nat)
    requires pair in RunSystem(pairs, acts).latest
    requires var top := RunSystem(pairs, acts).latest[pair];
      top.ts <= |acts| && InStepAt(history, EventsOf(acts[..top.ts], Lower(pair)), n)
    ensures n <= |history| && IsTopOf(RunSystem(pairs, acts).latest[pair], VenueBook(history, n))
  {
    RunHeld(pairs, acts);
    RunRising(pairs, acts);
    var top := RunSystem(pairs, acts).latest[pair];
    KeysStay(pairs, acts[..top.ts]);
    PairsAreIndependent(pairs, acts[..top.ts], Lower(pair));
    HandlerConverges(history, EventsOf(acts[..top.ts], Lower(pair)), n);
  }
}
