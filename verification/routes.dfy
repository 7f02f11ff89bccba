/**
 The HTTP route handlers of the shortener, each as a pure function from the
 store it reads to the store it leaves, the outcome it answers with, and
 whether it wrote the store back. Express, JSON bodies and the store file are
 not modelled; `validUrl` stands for the URL parser's verdict on a link and
 `id` and `now` for the generated token and the clock.
 */
module Routes {
  import opened Records
  import Filtering

  /** What a handler answers; `StatusCode` gives the HTTP status of each. */
  datatype Outcome =
    | Listed(urls: Store)
    | Created(record: Record)
    | MissingLink
    | InvalidUrl
    | Redirect(location: string)
    | NotFound
    | Deleted

  function StatusCode(o: Outcome): (code: int)
    ensures 200 <= code < 300 <==> o.Listed? || o.Created? || o.Deleted?
    ensures code == 400 <==> o.MissingLink? || o.InvalidUrl?
    ensures code == 404 <==> o.NotFound?
    ensures code == 302 <==> o.Redirect?
  {
    match o
    case Listed(_) => 200
    case Created(_) => 201
    case MissingLink => 400
    case InvalidUrl => 400
    case Redirect(_) => 302
    case NotFound => 404
    case Deleted => 204
  }

  /** A handler's effect: the store afterwards, the answer, and whether the store was written. */
  datatype Reply = Reply(store: Store, outcome: Outcome, wrote: bool)

  /** `GET /urls`: answers with the stored sequence, in store order, and changes nothing. */
  function ListUrls(s: Store): (r: Reply)
    ensures r.outcome.Listed? && r.outcome.urls == s
    ensures r.store == s && !r.wrote
  {
    Reply(s, Listed(s), false)
  }

  /**
   `POST /urls`: `link` is the body's `link` field, `None` when absent. An
   absent or empty link is refused as missing; a link the URL parser rejects
   is refused as invalid; otherwise one record is appended and the store is
   written.
   */
  function CreateUrl(s: Store, link: Option<string>, validUrl: string -> bool, id: string, now: int): (r: Reply)
    ensures (link.None? || link == Some("")) ==> r.outcome == MissingLink
    ensures (link.Some? && link.value != "" && !validUrl(link.value)) ==> r.outcome == InvalidUrl
    ensures r.outcome.Created? <==> link.Some? && link.value != "" && validUrl(link.value)
    ensures !r.outcome.Created? ==> r.store == s && !r.wrote
    ensures r.outcome.Created? ==>
              && r.outcome.record == Record(id, link.value, Some(now))
              && |r.store| == |s| + 1
              && r.store[..|s|] == s
              && r.store[|s|] == r.outcome.record
              && r.wrote
    ensures StatusCode(r.outcome) == 201 || StatusCode(r.outcome) == 400
  {
    match link
    case None => Reply(s, MissingLink, false)
    case Some(l) =>
      if l == "" then Reply(s, MissingLink, false)
      else if !validUrl(l) then Reply(s, InvalidUrl, false)
      else
        var added := Record(id, l, Some(now));
        Reply(s + [added], Created(added), true)
  }

  /**
   `GET /:id`: redirects to the link of the first record carrying `id`, or
   answers not-found when no record carries it. The store is never modified.
   */
  function Resolve(s: Store, id: string): (r: Reply)
    ensures r.store == s && !r.wrote
    ensures r.outcome.NotFound? || r.outcome.Redirect?
    ensures r.outcome.NotFound? <==> !HasId(s, id)
    ensures r.outcome.Redirect? ==>
              exists i :: 0 <= i < |s| && s[i].id == id && s[i].link == r.outcome.location
                          && forall j :: 0 <= j < i ==> s[j].id != id
  {
    match FirstIndexOf(s, id)
    case None => Reply(s, NotFound, false)
    case Some(k) => Reply(s, Redirect(s[k].link), false)
  }

  /** The delete handler's filter callback: keep records whose id differs from `id`. */
  function IdIsNot(id: string): Record -> bool {
    (r: Record) => r.id != id
  }

  /**
   `DELETE /urls/:id`: keeps exactly the records whose id differs from `id`, in
   order, so every duplicate of `id` goes. When nothing was removed the answer
   is not-found, the store is as before and nothing is written; otherwise the
   store is written and the answer is 204.
   */
  function DeleteUrl(s: Store, id: string): (r: Reply)
    ensures forall x :: x in r.store <==> x in s && x.id != id
    ensures Filtering.IsSubseq(r.store, s)
    ensures |r.store| == Filtering.Count(IdIsNot(id), s)
    ensures r.outcome.NotFound? || r.outcome.Deleted?
    ensures r.outcome.NotFound? <==> !HasId(s, id)
    ensures r.outcome.NotFound? ==> r.store == s && !r.wrote
    ensures r.outcome.Deleted? ==> |r.store| < |s| && r.wrote
  {
    var kept := Filtering.Filter(IdIsNot(id), s);
    Filtering.FilterLength(IdIsNot(id), s);
    Filtering.FilterIsSubseq(IdIsNot(id), s);
    Filtering.FilterSameLength(IdIsNot(id), s);
    if |kept| == |s| then Reply(kept, NotFound, false)
    else Reply(kept, Deleted, true)
  }

  /**
   What delete keeps is the only order-preserving selection of the records
   whose id differs from `id`.
   */
  lemma DeleteCharacterised(s: Store, id: string, t: Store)
    requires Filtering.IsSubseq(t, s)
    requires forall i :: 0 <= i < |t| ==> t[i].id != id
    requires |t| == Filtering.Count(IdIsNot(id), s)
    ensures DeleteUrl(s, id).store == t
  {
    Filtering.FilterUnique(IdIsNot(id), t, s);
  }

  /** After a delete of `id`, resolving `id` answers not-found, even if `id` was duplicated. */
  lemma DeleteThenResolve(s: Store, id: string)
    ensures Resolve(DeleteUrl(s, id).store, id).outcome == NotFound
  {
  }

  /** Deleting the same id twice: the second delete answers not-found and writes nothing. */
  lemma DeleteTwice(s: Store, id: string)
    ensures DeleteUrl(DeleteUrl(s, id).store, id) == Reply(DeleteUrl(s, id).store, NotFound, false)
  {
  }

  /**
   A successful create makes the new id resolvable to the new link when the id
   was fresh; when the id was already taken, the earlier record shadows the new
   one and resolving answers as before.
   */
  lemma CreateThenResolve(s: Store, link: string, validUrl: string -> bool, id: string, now: int)
    requires link != "" && validUrl(link)
    ensures !HasId(s, id) ==>
              Resolve(CreateUrl(s, Some(link), validUrl, id, now).store, id).outcome == Redirect(link)
    ensures HasId(s, id) ==>
              Resolve(CreateUrl(s, Some(link), validUrl, id, now).store, id) == Reply(CreateUrl(s, Some(link), validUrl, id, now).store, Resolve(s, id).outcome, false)
  {
  }

  /** Appending a record never changes where the first match of an id already present is. */
  lemma {:induction false} FirstIndexAppend(s: Store, x: Record, id: string)
    ensures HasId(s, id) ==> FirstIndexOf(s + [x], id) == FirstIndexOf(s, id)
    ensures !HasId(s, id) && x.id == id ==> FirstIndexOf(s + [x], id) == Some(|s|)
  {
    if |s| > 0 {
      assert (s + [x])[1..] == s[1..] + [x];
      FirstIndexAppend(s[1..], x, id);
      if s[0].id != id && HasId(s, id) {
        var i :| 0 <= i < |s| && s[i].id == id;
        assert s[1..][i - 1].id == id;
      }
    } else {
      assert s + [x] == [x];
    }
  }

  /** Under distinct ids, deleting a present id removes exactly one record. */
  lemma DeleteUniqueRemovesOne(s: Store, id: string)
    requires UniqueIds(s)
    requires HasId(s, id)
    ensures |DeleteUrl(s, id).store| == |s| - 1
  {
    CountUniqueMatch(s, id);
  }

  /** Under distinct ids, exactly one record of `s` carries a present id. */
  lemma {:induction false} CountUniqueMatch(s: Store, id: string)
    requires UniqueIds(s)
    requires HasId(s, id)
    ensures Filtering.Count(IdIsNot(id), s) == |s| - 1
  {
    if s[0].id == id {
      assert forall i :: 0 <= i < |s[1..]| ==> IdIsNot(id)(s[1..][i]) by {
        forall i | 0 <= i < |s[1..]| ensures s[1..][i].id != id {
          assert s[1..][i] == s[i + 1];
        }
      }
    } else {
      var i :| 0 <= i < |s| && s[i].id == id;
      assert s[1..][i - 1].id == id;
      CountUniqueMatch(s[1..], id);
    }
  }
}
