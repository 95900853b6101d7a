/** Update ranking is one lexicographic key, and the retained best update is maximal. */
module LightClientRanking {
  import opened Bytes
  import opened LightClient

  function Bit(b: bool): int {
    if b then 1 else 0
  }

  /** Larger is better, earlier components first: two thirds of 512 participants; below that, how many;
      a next committee for the period it is signed in; finality; finality in the period it attests;
      participants; older attested slot; older signature slot. */
  function Key(u: Update): (key: seq<int>)
    ensures |key| == 8
  {
    [Bit(u.participants * 3 >= 1024),
     if u.participants * 3 >= 1024 then 0 else u.participants,
     Bit(u.nextCommittee.Some? && u.attested.slot / 8192 == u.signatureSlot / 8192),
     Bit(u.finalized.Some?),
     Bit(u.finalized.Some? && u.finalized.value.slot / 8192 == u.attested.slot / 8192),
     u.participants,
     0 - (u.attested.slot as int),
     0 - (u.signatureSlot as int)]
  }

  predicate LexGreater(a: seq<int>, b: seq<int>)
    requires |a| == |b|
  {
    a != [] && (a[0] > b[0] || (a[0] == b[0] && LexGreater(a[1..], b[1..])))
  }

  /** The same order, read from position `k` on. */
  predicate GreaterFrom(a: seq<int>, b: seq<int>, k: nat)
    requires |a| == |b| && k <= |a|
    decreases |a| - k
  {
    k < |a| && (a[k] > b[k] || (a[k] == b[k] && GreaterFrom(a, b, k + 1)))
  }

  lemma {:induction false} GreaterFromIsLex(a: seq<int>, b: seq<int>, k: nat)
    requires |a| == |b| && k <= |a|
    ensures GreaterFrom(a, b, k) == LexGreater(a[k..], b[k..])
    decreases |a| - k
  {
    if k < |a| {
      GreaterFromIsLex(a, b, k + 1);
      assert a[k..][1..] == a[k + 1..] && b[k..][1..] == b[k + 1..];
    }
  }

  lemma {:induction false} LexGreaterStrict(a: seq<int>, b: seq<int>, c: seq<int>)
    requires |a| == |b| == |c|
    ensures !LexGreater(a, a)
    ensures LexGreater(a, b) && LexGreater(b, c) ==> LexGreater(a, c)
    ensures a == b || LexGreater(a, b) || LexGreater(b, a)
  {
    if a != [] {
      LexGreaterStrict(a[1..], b[1..], c[1..]);
      assert a == [a[0]] + a[1..] && b == [b[0]] + b[1..];
    }
  }

  /** The key, by the names that the comparison uses. */
  lemma KeyMeans(u: Update)
    ensures Key(u) == [Bit(u.HasSupermajority()), if u.HasSupermajority() then 0 else u.participants,
                       Bit(u.HasRelevantCommittee()), Bit(u.finalized.Some?), Bit(u.HasCommitteeFinality()),
                       u.participants, 0 - (u.attested.slot as int), 0 - (u.signatureSlot as int)]
    ensures u.HasCommitteeFinality() ==> u.finalized.Some?
  {
    hide Period;
    PeriodIsQuotient(u.attested.slot);
    PeriodIsQuotient(u.signatureSlot);
    if u.finalized.Some? { PeriodIsQuotient(u.finalized.value.slot); }
  }

  /** The cascade of comparisons is exactly the lexicographic order on the key. */
  lemma RankingIsLexicographic(candidate: Update, incumbent: Update)
    ensures IsBetter(candidate, incumbent) <==> LexGreater(Key(candidate), Key(incumbent))
  {
    hide Key;
    hide LexGreater;
    hide Update.HasSupermajority;
    hide Update.HasRelevantCommittee;
    hide Update.HasCommitteeFinality;
    KeyMeans(candidate);
    KeyMeans(incumbent);
    var a, b := Key(candidate), Key(incumbent);
    assert a[0..] == a && b[0..] == b;
    GreaterFromIsLex(a, b, 0);
    assert !GreaterFrom(a, b, 8);
    assert GreaterFrom(a, b, 6) == (a[6] > b[6] || (a[6] == b[6] && a[7] > b[7]));
    assert GreaterFrom(a, b, 4)
           == (a[4] > b[4] || (a[4] == b[4] && (a[5] > b[5] || (a[5] == b[5] && GreaterFrom(a, b, 6)))));
    assert GreaterFrom(a, b, 2)
           == (a[2] > b[2] || (a[2] == b[2] && (a[3] > b[3] || (a[3] == b[3] && GreaterFrom(a, b, 4)))));
  }

  /** A strict weak order: irreflexive, transitive, and ties are transitive. */
  lemma RankingIsStrictWeakOrder(a: Update, b: Update, c: Update)
    ensures !IsBetter(a, a)
    ensures IsBetter(a, b) && IsBetter(b, c) ==> IsBetter(a, c)
    ensures !IsBetter(a, b) && !IsBetter(b, c) ==> !IsBetter(a, c)
    ensures !IsBetter(a, b) && !IsBetter(b, a) <==> Key(a) == Key(b)
  {
    RankingIsLexicographic(a, a);
    RankingIsLexicographic(a, b);
    RankingIsLexicographic(b, a);
    RankingIsLexicographic(b, c);
    RankingIsLexicographic(a, c);
    LexGreaterStrict(Key(a), Key(b), Key(c));
    LexGreaterStrict(Key(c), Key(b), Key(a));
    LexGreaterStrict(Key(b), Key(a), Key(b));
    LexGreaterStrict(Key(b), Key(c), Key(b));
  }

  /** The retained update is one of those seen since the last reset, and none of them beats it. */
  ghost predicate Retains(best: Option<Update>, seen: seq<Update>) {
    match best
    case None => seen == []
    case Some(b) => b in seen && forall u :: u in seen ==> !IsBetter(u, b)
  }

  /** The updates accepted since the store last dropped its best update. */
  function SeenAfter(crypto: Crypto, store: Store, seen: seq<Update>, event: Event): seq<Update> {
    match event
    case Timeout(slot) => if Forced(store, slot).Some? then [] else seen
    case Receive(_, _) =>
      var accepted := Accepted(crypto, store, event);
      if accepted.None? then seen
      else if Finalizes(store, accepted.value) then []
      else seen + [accepted.value]
  }

  function SeenInRun(crypto: Crypto, store: Store, seen: seq<Update>, events: seq<Event>): seq<Update>
    decreases |events|
  {
    if events == [] then seen
    else SeenInRun(crypto, Next(crypto, store, events[0]), SeenAfter(crypto, store, seen, events[0]), events[1..])
  }

  lemma RetainsStep(crypto: Crypto, store: Store, seen: seq<Update>, event: Event)
    requires Retains(store.best, seen)
    ensures Retains(Next(crypto, store, event).best, SeenAfter(crypto, store, seen, event))
  {
    if event.Receive? {
      var accepted := Accepted(crypto, store, event);
      if accepted.Some? && !Finalizes(store, accepted.value) {
        var update := accepted.value;
        var best := Recorded(store, update).best.value;
        forall u | u in seen + [update]
          ensures !IsBetter(u, best)
        {
          if store.best.Some? { RankingIsStrictWeakOrder(u, store.best.value, best); }
          RankingIsStrictWeakOrder(update, best, update);
        }
      }
    }
  }

  /** Over every run: no update processed since the last reset beats the retained one. */
  lemma {:induction false} BestUpdateIsMaximal(crypto: Crypto, store: Store, seen: seq<Update>, events: seq<Event>)
    requires Retains(store.best, seen)
    ensures Retains(Run(crypto, store, events).best, SeenInRun(crypto, store, seen, events))
    decreases |events|
  {
    if events != [] {
      RetainsStep(crypto, store, seen, events[0]);
      BestUpdateIsMaximal(
        crypto, Next(crypto, store, events[0]), SeenAfter(crypto, store, seen, events[0]), events[1..]);
    }
  }
}
