/**
 The expiry sweep (`cleanExpiredURLs`): keep only the records younger than
 the expiration window, and write the store back only when something was
 removed. Time is integer milliseconds; `now` is a parameter instead of the
 clock.
 */
module Expiry {
  import opened Records
  import Filtering

  const ExpirationHours: int := 3
  const MillisPerHour: int := 1000 * 60 * 60
  /** Three hours, in milliseconds. */
  const ExpirationWindow: int := ExpirationHours * MillisPerHour

  /**
   The sweep's keep test: the record's age at `now` is under the window. A
   record whose timestamp does not parse has a NaN age, the comparison fails,
   and the record is not kept. A timestamp in the future has a negative age and
   is kept.
   */
  predicate Alive(now: int, r: Record)
    ensures r.addedAt.None? ==> !Alive(now, r)
    ensures r.addedAt.Some? ==> (Alive(now, r) <==> now - r.addedAt.value < 10_800_000)
    ensures r.addedAt.Some? && r.addedAt.value > now ==> Alive(now, r)
    ensures r.addedAt == Some(now - 10_800_000) ==> !Alive(now, r)
  {
    match r.addedAt
    case None => false
    case Some(t) => now - t < ExpirationWindow
  }

  /** The keep test at `now`, as the callback handed to `filter`. */
  function AliveAt(now: int): Record -> bool {
    r => Alive(now, r)
  }

  /** The sweep's effect: the surviving records and whether the store was written. */
  datatype SweepResult = SweepResult(kept: Store, wrote: bool)

  /**
   Sweeps `s` at instant `now`. The survivors are exactly the records alive at
   `now`, in their original relative order, and there are as many of them as
   there are alive records in `s`; the store is written exactly when the sweep
   removed something, and otherwise the store is left exactly as it was.
   */
  function Sweep(s: Store, now: int): (r: SweepResult)
    ensures forall x :: x in r.kept <==> x in s && Alive(now, x)
    ensures forall x :: x in r.kept ==> x.addedAt.Some?
    ensures Filtering.IsSubseq(r.kept, s)
    ensures |r.kept| == Filtering.Count(AliveAt(now), s)
    ensures r.wrote <==> |r.kept| < |s|
    ensures r.wrote <==> exists i :: 0 <= i < |s| && !Alive(now, s[i])
    ensures !r.wrote ==> r.kept == s
  {
    var kept := Filtering.Filter(AliveAt(now), s);
    Filtering.FilterLength(AliveAt(now), s);
    Filtering.FilterIsSubseq(AliveAt(now), s);
    Filtering.FilterSameLength(AliveAt(now), s);
    SweepResult(kept, |kept| != |s|)
  }

  /**
   The sweep's survivors are the only order-preserving selection of the alive
   records: any subsequence of `s` made of alive records and as long as the
   number of alive records in `s` is what the sweep keeps.
   */
  lemma SweepCharacterised(s: Store, now: int, t: Store)
    requires Filtering.IsSubseq(t, s)
    requires forall i :: 0 <= i < |t| ==> Alive(now, t[i])
    requires |t| == Filtering.Count(AliveAt(now), s)
    ensures Sweep(s, now).kept == t
  {
    Filtering.FilterUnique(AliveAt(now), t, s);
  }

  /** Sweeping again at the same instant keeps everything and writes nothing. */
  lemma SweepIdempotent(s: Store, now: int)
    ensures Sweep(Sweep(s, now).kept, now) == SweepResult(Sweep(s, now).kept, false)
  {
  }

  /**
   A sweep at `now1` followed by one at a later `now2` leaves exactly what the
   single later sweep would: the periodic sweeps compose into one.
   */
  lemma SweepsCompose(s: Store, now1: int, now2: int)
    requires now1 <= now2
    ensures Sweep(Sweep(s, now1).kept, now2).kept == Sweep(s, now2).kept
  {
    Filtering.FilterStricter(AliveAt(now1), AliveAt(now2), s);
  }

  /** Sweeping a concatenation sweeps each part: nothing is reordered across them. */
  lemma SweepAppend(a: Store, b: Store, now: int)
    ensures Sweep(a + b, now).kept == Sweep(a, now).kept + Sweep(b, now).kept
  {
    Filtering.FilterAppend(AliveAt(now), a, b);
  }
}
