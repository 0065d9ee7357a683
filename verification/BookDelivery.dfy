/**
 * Which messages send an update and what becomes of it: from the message to what Get returns once the
 * consumer has caught up.
 */
module BookDelivery {
  import opened Common
  import opened OrderBook
  import opened TopLevels
  import opened PairStream
  import opened BookFeed

  /** The best bid and ask of an update, a zero price for a side without levels. */
  predicate ShowsFirstLevels(top: TopOfBook, update: BookUpdate) {
    && top.pair == update.pair && top.ts == update.ts
    && top.bid == (if |update.bids| > 0 then Some(update.bids[0].price) else None)
    && top.ask == (if |update.asks| > 0 then Some(update.asks[0].price) else None)
  }

  /** Exactly one update is appended: the 20 best levels of each side of this book, under the upper-cased name. */
  ghost predicate SendsOne(out: seq<BookUpdate>, out': seq<BookUpdate>, key: string, book: Book, ts: nat) {
    && |out'| == |out| + 1 && out'[..|out|] == out
    && var update := out'[|out|];
       && update.pair == Upper(key) && update.ts == ts
       && IsBestSelection(book.bids, true, 20, update.bids)
       && IsBestSelection(book.asks, false, 20, update.asks)
       && forall top :: ShowsFirstLevels(top, update) ==> IsTopOf(top, book)
  }

  lemma SystemLast(pairs: seq<string>, acts: seq<Action>, a: Action)
    ensures RunSystem(pairs, acts + [a]) == Step(RunSystem(pairs, acts), a)
  {
    assert (acts + [a])[..|acts|] == acts;
  }

  lemma TopOfABook(side: Side, descending: bool)
    ensures IsBestSelection(side, descending, 20, Top(side, descending, 20))
    ensures side == map[] <==> Top(side, descending, 20) == []
  {
    TopIsTheBestSelection(side, descending, 20, Top(side, descending, 20));
    assert side != map[] <==> |side| > 0 by {
      if k :| k in side {
        assert |side.Keys| == |side| && side.Keys != {};
      }
    }
  }

  lemma SentExactly(out: seq<BookUpdate>, key: string, book: Book, ts: nat)
    ensures var out' := Send(out, UpdateOf(key, book, ts));
      if book.bids != map[] && book.asks != map[] && |out| < 64 then SendsOne(out, out', key, book, ts) else out' == out
  {
    TopOfABook(book.bids, true);
    TopOfABook(book.asks, false);
    var update := UpdateOf(key, book, ts);
    if update.bids != [] && update.asks != [] {
      EmittedTop(key, book, ts);
      forall top | ShowsFirstLevels(top, update) ensures IsTopOf(top, book) {
        assert top == TopOf(update);
      }
    }
  }

  /**
   * A message of a known pair sends exactly one update, of the book it makes, if it is the first since a
   * reset or the next in turn, that book has both sides, and fewer than 64 updates wait; a stale message
   * and one that reveals a gap send nothing. Nothing is taken or served in that step.
   */
  lemma MessageSendsExactly(pairs: seq<string>, acts: seq<Action>, key: string, id: int, diff: Diff, refresh: Option<Snapshot>)
    requires key in Keys(pairs)
    ensures var s, s' := RunSystem(pairs, acts), RunSystem(pairs, acts + [Produce(key, Depth(id, diff, refresh))]);
      && key in s.feed.books && key in s'.feed.books && s'.taken == s.taken && s'.latest == s.latest
      && var lastSeq, book := s.feed.books[key].lastSeq, s'.feed.books[key].book;
         if (lastSeq == 0 || id == lastSeq + 1) && book.bids != map[] && book.asks != map[] && |s.feed.out| < 64
         then SendsOne(s.feed.out, s'.feed.out, key, book, |acts| + 1)
         else s'.feed.out == s.feed.out
  {
    var ev := Depth(id, diff, refresh);
    KeysStay(pairs, acts);
    RunRising(pairs, acts);
    SystemLast(pairs, acts, Produce(key, ev));
    var s := RunSystem(pairs, acts);
    ClassifyExactly(s.feed.books[key].lastSeq, id);
    SentExactly(s.feed.out, key, Handle(s.feed.books[key], ev).book, |acts| + 1);
  }

  /** A start-up request sends exactly one update, of the snapshot's book, if it succeeded, with both sides and room. */
  lemma StartSendsExactly(pairs: seq<string>, acts: seq<Action>, key: string, refresh: Option<Snapshot>)
    requires key in Keys(pairs)
    ensures var s, s' := RunSystem(pairs, acts), RunSystem(pairs, acts + [Produce(key, Initial(refresh))]);
      && key in s.feed.books && key in s'.feed.books && s'.taken == s.taken && s'.latest == s.latest
      && var book := s'.feed.books[key].book;
         if refresh != None && book.bids != map[] && book.asks != map[] && |s.feed.out| < 64
         then SendsOne(s.feed.out, s'.feed.out, key, book, |acts| + 1)
         else s'.feed.out == s.feed.out
  {
    KeysStay(pairs, acts);
    RunRising(pairs, acts);
    SystemLast(pairs, acts, Produce(key, Initial(refresh)));
    var s := RunSystem(pairs, acts);
    SentExactly(s.feed.out, key, Handle(s.feed.books[key], Initial(refresh)).book, |acts| + 1);
  }

  // ----- Publishing -----

  predicate IsLastOf(updates: seq<BookUpdate>, pair: string, i: nat) {
    && i < |updates| && updates[i].pair == pair
    && forall j :: i < j < |updates| ==> updates[j].pair != pair
  }

  /** The pair is served the top of its last update; if there is none it is served as before. */
  predicate ServesLast(before: map<string, TopOfBook>, updates: seq<BookUpdate>, after: map<string, TopOfBook>, pair: string) {
    && ((forall i :: 0 <= i < |updates| ==> updates[i].pair != pair) ==> Lookup(after, pair) == Lookup(before, pair))
    && forall i :: 0 <= i < |updates| && IsLastOf(updates, pair, i) ==> pair in after && ShowsFirstLevels(after[pair], updates[i])
  }

  lemma StoreServesLast(
    before: map<string, TopOfBook>, front: seq<BookUpdate>, last: BookUpdate, after: map<string, TopOfBook>, pair: string)
    requires ServesLast(before, front, after, pair)
    ensures ServesLast(before, front + [last], StoreTop(after, last), pair)
  {
    var updates, stored := front + [last], StoreTop(after, last);
    assert updates[|front|] == last;
    if last.pair != pair {
      assert Lookup(stored, pair) == Lookup(after, pair);
      assert forall i :: 0 <= i < |front| ==> updates[i] == front[i];
      forall i | 0 <= i < |updates| && IsLastOf(updates, pair, i)
        ensures pair in stored && ShowsFirstLevels(stored[pair], updates[i])
      {
        assert IsLastOf(front, pair, i) by {
          forall j | i < j < |front| ensures front[j].pair != pair { assert updates[j] == front[j]; }
        }
        assert stored[pair] == after[pair];
      }
    }
  }

  lemma PublishLast(latest: map<string, TopOfBook>, front: seq<BookUpdate>, last: BookUpdate)
    ensures PublishAll(latest, front + [last]) == StoreTop(PublishAll(latest, front), last)
  {
    assert (front + [last])[..|front|] == front;
  }

  lemma NothingPublished(latest: map<string, TopOfBook>, pair: string)
    ensures ServesLast(latest, [], PublishAll(latest, []), pair)
  {
  }

  /** Publishing a list of updates leaves each pair with the top of its last one, and other pairs alone. */
  lemma {:induction false} LastUpdateWins(latest: map<string, TopOfBook>, updates: seq<BookUpdate>, pair: string)
    ensures ServesLast(latest, updates, PublishAll(latest, updates), pair)
  {
    if updates == [] {
      NothingPublished(latest, pair);
    } else {
      var front, last := updates[..|updates| - 1], updates[|updates| - 1];
      assert updates == front + [last];
      LastUpdateWins(latest, front, pair);
      StoreServesLast(latest, front, last, PublishAll(latest, front), pair);
      PublishLast(latest, front, last);
    }
  }

  /** The update in the consumer's hand and those in the channel, oldest first. */
  function Waiting(s: System): seq<BookUpdate> {
    (if s.taken.Some? then [s.taken.value] else []) + s.feed.out
  }

  /** What will be served once everything on its way has arrived. */
  function Eventually(s: System): map<string, TopOfBook> {
    PublishAll(s.latest, Waiting(s))
  }

  lemma {:induction false} PublishFirst(latest: map<string, TopOfBook>, first: BookUpdate, rest: seq<BookUpdate>)
    ensures PublishAll(latest, [first] + rest) == PublishAll(StoreTop(latest, first), rest)
  {
    if rest == [] {
      assert [first] + rest == [first] && [first][..0] == [];
      assert PublishAll(latest, []) == latest;
    } else {
      PublishFirst(latest, first, rest[..|rest| - 1]);
      assert ([first] + rest)[..|rest|] == [first] + rest[..|rest| - 1];
    }
  }

  /** Receiving and publishing move updates towards the reader and change nothing about where they end up. */
  lemma ConsumerKeepsCourse(s: System, a: Action)
    requires !a.Produce?
    ensures Eventually(Step(s, a)) == Eventually(s) && Step(s, a).feed.books == s.feed.books
  {
    if a.Receive? && s.taken.None? && s.feed.out != [] {
      assert Waiting(Step(s, a)) == Waiting(s);
    } else if a.Publish? && s.taken.Some? {
      PublishFirst(s.latest, s.taken.value, s.feed.out);
      assert Waiting(Step(s, a)) == s.feed.out;
    } else {
      assert Waiting(Step(s, a)) == Waiting(s);
    }
  }

  predicate ConsumerOnly(acts: seq<Action>) {
    forall i :: 0 <= i < |acts| ==> !acts[i].Produce?
  }

  predicate Drained(s: System) {
    s.taken == None && s.feed.out == []
  }

  lemma {:induction false} RunKeepsCourse(pairs: seq<string>, acts: seq<Action>, more: seq<Action>)
    requires ConsumerOnly(more)
    ensures Eventually(RunSystem(pairs, acts + more)) == Eventually(RunSystem(pairs, acts))
    ensures RunSystem(pairs, acts + more).feed.books == RunSystem(pairs, acts).feed.books
  {
    if more == [] {
      assert acts + more == acts;
    } else {
      var front, last := more[..|more| - 1], more[|more| - 1];
      assert acts + more == (acts + front) + [last];
      RunKeepsCourse(pairs, acts, front);
      SystemLast(pairs, acts + front, last);
      ConsumerKeepsCourse(RunSystem(pairs, acts + front), last);
    }
  }

  /** Once the consumer has caught up, each pair is served the top of its last update, and nothing else has changed. */
  lemma DrainedServesTheLast(pairs: seq<string>, acts: seq<Action>, more: seq<Action>, pair: string)
    requires ConsumerOnly(more) && Drained(RunSystem(pairs, acts + more))
    ensures ServesLast(RunSystem(pairs, acts).latest, Waiting(RunSystem(pairs, acts)), RunSystem(pairs, acts + more).latest, pair)
  {
    var s, end := RunSystem(pairs, acts), RunSystem(pairs, acts + more);
    RunKeepsCourse(pairs, acts, more);
    LastUpdateWins(s.latest, Waiting(s), pair);
    assert Waiting(end) == [];
    assert Eventually(end) == end.latest;
  }

  /**
   * From a message to its reader: after a message that is first or next in turn, leaves both sides
   * present and finds room, once the consumer has caught up Get returns the best prices of that book.
   */
  lemma AcceptedMessageIsServed(
    pairs: seq<string>, acts: seq<Action>, key: string, id: int, diff: Diff, refresh: Option<Snapshot>, more: seq<Action>)
    requires key in Keys(pairs) && key in RunSystem(pairs, acts).feed.books && |RunSystem(pairs, acts).feed.out| < 64
    requires var lastSeq := RunSystem(pairs, acts).feed.books[key].lastSeq; lastSeq == 0 || id == lastSeq + 1
    requires var s' := RunSystem(pairs, acts + [Produce(key, Depth(id, diff, refresh))]);
      key in s'.feed.books && s'.feed.books[key].book.bids != map[] && s'.feed.books[key].book.asks != map[]
    requires ConsumerOnly(more) && Drained(RunSystem(pairs, acts + [Produce(key, Depth(id, diff, refresh))] + more))
    ensures var sent := acts + [Produce(key, Depth(id, diff, refresh))];
      var end := RunSystem(pairs, sent + more);
      && Upper(key) in end.latest && end.latest[Upper(key)].ts == |sent|
      && key in end.feed.books && IsTopOf(end.latest[Upper(key)], end.feed.books[key].book)
  {
    var sent := acts + [Produce(key, Depth(id, diff, refresh))];
    MessageSendsExactly(pairs, acts, key, id, diff, refresh);
    RunKeepsCourse(pairs, sent, more);
    DrainedServesTheLast(pairs, sent, more, Upper(key));
    var s' := RunSystem(pairs, sent);
    var waiting := Waiting(s');
    var last := |waiting| - 1;
    assert waiting[last] == s'.feed.out[|s'.feed.out| - 1];
    assert IsLastOf(waiting, Upper(key), last);
  }

  /** How many steps the consumer needs to catch up. */
  function StepsLeft(s: System): nat {
    2 * |s.feed.out| + if s.taken.Some? then 1 else 0
  }

  function NextStep(s: System): Action {
    if s.taken.Some? then Publish else Receive
  }

  lemma NextStepHelps(pairs: seq<string>, acts: seq<Action>)
    requires !Drained(RunSystem(pairs, acts))
    ensures StepsLeft(RunSystem(pairs, acts + [NextStep(RunSystem(pairs, acts))])) < StepsLeft(RunSystem(pairs, acts))
  {
    SystemLast(pairs, acts, NextStep(RunSystem(pairs, acts)));
  }

  /** The consumer can always catch up by itself. */
  lemma {:induction false} CanDrain(pairs: seq<string>, acts: seq<Action>) returns (more: seq<Action>)
    ensures ConsumerOnly(more) && Drained(RunSystem(pairs, acts + more))
    decreases StepsLeft(RunSystem(pairs, acts))
  {
    more := [];
    if Drained(RunSystem(pairs, acts)) {
      assert acts + more == acts;
    } else {
      var next := NextStep(RunSystem(pairs, acts));
      NextStepHelps(pairs, acts);
      var rest := CanDrain(pairs, acts + [next]);
      more := [next] + rest;
      assert acts + more == acts + [next] + rest;
    }
  }
}
