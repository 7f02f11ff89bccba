/**
 The service as a state machine over the store: every request a route
 handles, and every tick of the periodic sweep, is one step from the store it
 reads to the store it leaves. Scheduling, concurrency between handlers and
 the file I/O behind a write are not modelled; a step reports only whether
 it wrote.
 */
module Service {
  import opened Records
  import Filtering
  import Expiry
  import Routes

  /** Everything that reads or changes the store. */
  datatype Event =
    | ListRequest
    | CreateRequest(link: Option<string>, id: string, now: int)
    | ResolveRequest(id: string)
    | DeleteRequest(id: string)
    | SweepTick(now: int)

  /** One step's effect; `reply` is `None` for a sweep tick, which answers no client. */
  datatype Transition = Transition(store: Store, wrote: bool, reply: Option<Routes.Outcome>)

  /** The record a create request would append if its link is accepted. */
  function CreatedRecord(e: Event): Record
    requires e.CreateRequest? && e.link.Some?
  {
    Record(e.id, e.link.value, Some(e.now))
  }

  /**
   Applies one event. The store is written exactly when the step changed it,
   so the persisted store always agrees with the one in memory; no step edits a
   record — every record afterwards was there before or is the one a create
   appended — and no step grows the store by more than one record.
   */
  function Step(s: Store, e: Event, validUrl: string -> bool): (t: Transition)
    ensures t.wrote <==> t.store != s
    ensures forall x :: x in t.store ==>
              x in s || (e.CreateRequest? && e.link.Some? && x == CreatedRecord(e))
    ensures |t.store| <= |s| + 1
    ensures t.reply.None? <==> e.SweepTick?
  {
    match e
    case ListRequest =>
      var r := Routes.ListUrls(s);
      Transition(r.store, r.wrote, Some(r.outcome))
    case CreateRequest(link, id, now) =>
      var r := Routes.CreateUrl(s, link, validUrl, id, now);
      assert r.outcome.Created? ==> r.store[|s|] == CreatedRecord(e);
      Transition(r.store, r.wrote, Some(r.outcome))
    case ResolveRequest(id) =>
      var r := Routes.Resolve(s, id);
      Transition(r.store, r.wrote, Some(r.outcome))
    case DeleteRequest(id) =>
      var r := Routes.DeleteUrl(s, id);
      Transition(r.store, r.wrote, Some(r.outcome))
    case SweepTick(now) =>
      var r := Expiry.Sweep(s, now);
      Transition(r.kept, r.wrote, None)
  }

  /** Filtering a store with distinct ids leaves a store with distinct ids. */
  lemma {:induction false} FilterKeepsUniqueIds(p: Record -> bool, s: Store)
    requires UniqueIds(s)
    ensures UniqueIds(Filtering.Filter(p, s))
  {
    if |s| > 0 {
      var tail := Filtering.Filter(p, s[1..]);
      FilterKeepsUniqueIds(p, s[1..]);
      forall x | x in tail ensures x.id != s[0].id {
        var k :| 0 <= k < |s[1..]| && s[1..][k] == x;
        assert s[k + 1] == x;
      }
      if p(s[0]) {
        var r := [s[0]] + tail;
        forall i, j | 0 <= i < j < |r| ensures r[i].id != r[j].id {
          if i == 0 {
            assert r[j] == tail[j - 1] && r[j] in tail;
          } else {
            assert r[i] == tail[i - 1] && r[j] == tail[j - 1];
          }
        }
      }
    }
  }

  /**
   Ids stay distinct across any step, provided a create draws an id no record
   already carries (the generator's job; the handler does not check it).
   */
  lemma StepKeepsUniqueIds(s: Store, e: Event, validUrl: string -> bool)
    requires UniqueIds(s)
    requires e.CreateRequest? ==> !HasId(s, e.id)
    ensures UniqueIds(Step(s, e, validUrl).store)
  {
    match e
    case DeleteRequest(id) =>
      FilterKeepsUniqueIds(Routes.IdIsNot(id), s);
    case SweepTick(now) =>
      FilterKeepsUniqueIds(Expiry.AliveAt(now), s);
    case CreateRequest(link, id, now) =>
      var t := Step(s, e, validUrl).store;
      if t != s {
        assert t == s + [CreatedRecord(e)];
        forall i, j | 0 <= i < j < |t| ensures t[i].id != t[j].id {
          if j == |s| {
            assert t[i] == s[i];
          } else {
            assert t[i] == s[i] && t[j] == s[j];
          }
        }
      }
    case _ =>
  }

  /**
   Once a sweep has removed an expired record, its id no longer resolves,
   provided ids are distinct; otherwise a surviving record with the same id
   would answer instead.
   */
  lemma SweptRecordUnresolvable(s: Store, now: int, x: Record)
    requires UniqueIds(s)
    requires x in s && !Expiry.Alive(now, x)
    ensures Routes.Resolve(Expiry.Sweep(s, now).kept, x.id).outcome == Routes.NotFound
  {
    var kept := Expiry.Sweep(s, now).kept;
    var k :| 0 <= k < |s| && s[k] == x;
    forall i | 0 <= i < |kept| ensures kept[i].id != x.id {
      assert kept[i] in kept;
      var m :| 0 <= m < |s| && s[m] == kept[i];
      assert m != k;
    }
  }

  /**
   Without distinct ids the previous property fails: an expired record can be
   swept while a live duplicate of its id keeps resolving.
   */
  lemma SweptDuplicateStillResolves()
    ensures
      var now := Expiry.ExpirationWindow;
      var stale := Record("abc", "http://old", Some(0));
      var young := Record("abc", "http://new", Some(now));
      && stale in [stale, young] && !Expiry.Alive(now, stale)
      && Routes.Resolve(Expiry.Sweep([stale, young], now).kept, "abc").outcome == Routes.Redirect("http://new")
  {
  }
}
