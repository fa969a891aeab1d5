/** The kid lists shown to a signed-in parent: owned kids and kids shared
    with them, merged by id through a JavaScript `Map`
    (app/parent/page.tsx, app/kids/page.tsx, app/parent/contributions/page.tsx),
    the Owner / Shared Access label, the public toggle and the server-side
    session check of the kids page. */
module KidLists {
  import opened Common
  import opened Kids

  function Ids(xs: seq<KidDoc>): set<KidId> {
    set d | d in xs :: d.id
  }

  ghost predicate IdsDistinct(xs: seq<KidDoc>) {
    forall i, j :: 0 <= i < j < |xs| ==> xs[i].id != xs[j].id
  }

  /** `map.set(d.id, d)`: overwrite in place when the id is present (its
      position is kept), otherwise append. */
  function MapSet(acc: seq<KidDoc>, d: KidDoc): seq<KidDoc> {
    if acc == [] then [d]
    else if acc[0].id == d.id then [d] + acc[1..]
    else [acc[0]] + MapSet(acc[1..], d)
  }

  /** `Array.from(new Map(xs.map(k => [k.id, k])).values())`. */
  function Dedup(xs: seq<KidDoc>): seq<KidDoc> {
    if xs == [] then [] else MapSet(Dedup(xs[..|xs| - 1]), xs[|xs| - 1])
  }

  /** The owned results followed by the shared results, deduplicated. */
  function MergeKids(owned: seq<KidDoc>, shared: seq<KidDoc>): seq<KidDoc> {
    Dedup(owned + shared)
  }

  /** The last document in `xs` with id `id`: the one a `Map` keeps. */
  function LastWith(xs: seq<KidDoc>, id: KidId): Option<KidDoc> {
    if xs == [] then None
    else if xs[|xs| - 1].id == id then Some(xs[|xs| - 1])
    else LastWith(xs[..|xs| - 1], id)
  }

  /** `map.set` on a list with distinct ids keeps them distinct, adds the
      id, holds the new document, and drops only the document it replaces. */
  lemma MapSetSpec(acc: seq<KidDoc>, d: KidDoc)
    requires IdsDistinct(acc)
    ensures var r := MapSet(acc, d);
            && IdsDistinct(r)
            && Ids(r) == Ids(acc) + {d.id}
            && d in r
            && forall e :: e in r && e != d ==> e in acc && e.id != d.id
  {
    if d.id in Ids(acc) {
      var k :| 0 <= k < |acc| && acc[k].id == d.id;
      MapSetReplaces(acc, k, d);
    } else {
      MapSetAppends(acc, d);
    }
  }

  /** The replacing case of `MapSetSpec`: every position keeps its id. */
  lemma MapSetReplaces(acc: seq<KidDoc>, k: int, d: KidDoc)
    requires IdsDistinct(acc)
    requires 0 <= k < |acc| && acc[k].id == d.id
    ensures var r := MapSet(acc, d);
            && IdsDistinct(r)
            && Ids(r) == Ids(acc) + {d.id}
            && d in r
            && forall e :: e in r && e != d ==> e in acc && e.id != d.id
  {
    MapSetAt(acc, k, d);
    var r := acc[k := d];
    assert forall i :: 0 <= i < |r| ==> r[i].id == acc[i].id;
    assert r[k] == d;
    forall e | e in r && e != d ensures e in acc && e.id != d.id {
      var i :| 0 <= i < |r| && r[i] == e;
      assert i != k && acc[i] == e;
    }
    forall x | x in Ids(acc) ensures x in Ids(r) {
      var i :| 0 <= i < |acc| && acc[i].id == x;
      assert r[i].id == x;
    }
    forall x | x in Ids(r) ensures x in Ids(acc) {
      var i :| 0 <= i < |r| && r[i].id == x;
      assert acc[i].id == x;
    }
  }

  /** The appending case of `MapSetSpec`. */
  lemma MapSetAppends(acc: seq<KidDoc>, d: KidDoc)
    requires IdsDistinct(acc)
    requires d.id !in Ids(acc)
    ensures var r := MapSet(acc, d);
            && IdsDistinct(r)
            && Ids(r) == Ids(acc) + {d.id}
            && d in r
            && forall e :: e in r && e != d ==> e in acc && e.id != d.id
  {
    MapSetAbsent(acc, d);
    var r := acc + [d];
    forall i, j | 0 <= i < j < |r| ensures r[i].id != r[j].id {
      if j == |acc| { assert acc[i] in acc; }
    }
  }

  /** The merge keeps one document per id, covers every id of its input,
      and keeps for each id the last document with that id. */
  lemma {:induction false} DedupSpec(xs: seq<KidDoc>)
    ensures var r := Dedup(xs);
            && IdsDistinct(r)
            && Ids(r) == Ids(xs)
            && forall d :: d in r ==> LastWith(xs, d.id) == Some(d)
  {
    if xs != [] {
      var init := xs[..|xs| - 1];
      var last := xs[|xs| - 1];
      DedupSpec(init);
      MapSetSpec(Dedup(init), last);
      assert xs == init + [last];
      assert Ids(xs) == Ids(init) + {last.id};
    }
  }

  // ---------------------------------------------------------------------
  // The merge stated directly for the two query results
  // ---------------------------------------------------------------------

  /** An owned document, replaced by the shared document with its id if any. */
  function Overlay(o: KidDoc, shared: seq<KidDoc>): KidDoc {
    match LastWith(shared, o.id)
    case Some(d) => d
    case None => o
  }

  /** Every owned document, overlaid, in the owned order. */
  function OverlayAll(owned: seq<KidDoc>, shared: seq<KidDoc>): (r: seq<KidDoc>)
    ensures |r| == |owned|
  {
    if owned == [] then [] else [Overlay(owned[0], shared)] + OverlayAll(owned[1..], shared)
  }

  /** The shared documents that are not also owned, in query order. */
  function NotOwned(shared: seq<KidDoc>, owned: seq<KidDoc>): seq<KidDoc> {
    if shared == [] then []
    else NotOwned(shared[..|shared| - 1], owned)
         + (if shared[|shared| - 1].id in Ids(owned) then [] else [shared[|shared| - 1]])
  }

  /** Reference definition of the merge when each query returns distinct
      ids: the owned kids in their order, each replaced by its shared copy
      if there is one, then the shared kids that are not owned. */
  function ReferenceMerge(owned: seq<KidDoc>, shared: seq<KidDoc>): seq<KidDoc> {
    OverlayAll(owned, shared) + NotOwned(shared, owned)
  }

  lemma MapSetAbsent(acc: seq<KidDoc>, d: KidDoc)
    requires d.id !in Ids(acc)
    ensures MapSet(acc, d) == acc + [d]
  {
    if acc != [] {
      assert acc[0] in acc;
      assert Ids(acc[1..]) <= Ids(acc) by {
        forall e | e in acc[1..] ensures e in acc { }
      }
      MapSetAbsent(acc[1..], d);
      assert acc == [acc[0]] + acc[1..];
    }
  }

  lemma {:induction false} MapSetSplit(a: seq<KidDoc>, b: seq<KidDoc>, d: KidDoc)
    ensures d.id in Ids(a) ==> MapSet(a + b, d) == MapSet(a, d) + b
    ensures d.id !in Ids(a) ==> MapSet(a + b, d) == a + MapSet(b, d)
  {
    if a == [] {
      assert a + b == b;
    } else {
      assert (a + b)[0] == a[0];
      assert (a + b)[1..] == a[1..] + b;
      assert Ids(a) == {a[0].id} + Ids(a[1..]) by {
        assert a == [a[0]] + a[1..];
        forall e | e in a ensures e == a[0] || e in a[1..] { }
      }
      MapSetSplit(a[1..], b, d);
    }
  }

  lemma {:induction false} MapSetAt(acc: seq<KidDoc>, k: int, d: KidDoc)
    requires IdsDistinct(acc)
    requires 0 <= k < |acc| && acc[k].id == d.id
    ensures MapSet(acc, d) == acc[k := d]
  {
    if k > 0 {
      assert acc[0].id != d.id;
      var tail := acc[1..];
      assert IdsDistinct(tail) by {
        forall i, j | 0 <= i < j < |tail| ensures tail[i].id != tail[j].id {
          assert tail[i] == acc[i + 1] && tail[j] == acc[j + 1];
        }
      }
      assert tail[k - 1] == acc[k];
      MapSetAt(tail, k - 1, d);
      assert acc[k := d] == [acc[0]] + tail[k - 1 := d];
    } else {
      assert acc[k := d] == [d] + acc[1..];
    }
  }

  lemma {:induction false} DedupOfDistinct(xs: seq<KidDoc>)
    requires IdsDistinct(xs)
    ensures Dedup(xs) == xs
  {
    if xs != [] {
      var init := xs[..|xs| - 1];
      var last := xs[|xs| - 1];
      assert IdsDistinct(init);
      DedupOfDistinct(init);
      assert last.id !in Ids(init) by {
        forall e | e in init ensures e.id != last.id {
          var k :| 0 <= k < |init| && init[k] == e;
        }
      }
      MapSetAbsent(init, last);
      assert xs == init + [last];
    }
  }

  lemma {:induction false} LastWithId(xs: seq<KidDoc>, id: KidId)
    ensures LastWith(xs, id).Some? ==> LastWith(xs, id).value.id == id
    ensures LastWith(xs, id).Some? <==> id in Ids(xs)
  {
    if xs != [] {
      LastWithId(xs[..|xs| - 1], id);
      assert xs == xs[..|xs| - 1] + [xs[|xs| - 1]];
      assert Ids(xs) == Ids(xs[..|xs| - 1]) + {xs[|xs| - 1].id};
    }
  }

  lemma {:induction false} LastWithMember(xs: seq<KidDoc>, id: KidId)
    ensures LastWith(xs, id).Some? ==> LastWith(xs, id).value in xs
  {
    if xs != [] && xs[|xs| - 1].id != id {
      LastWithMember(xs[..|xs| - 1], id);
    }
  }

  lemma LastWithSnoc(sh: seq<KidDoc>, d: KidDoc, id: KidId)
    ensures LastWith(sh + [d], id) == if d.id == id then Some(d) else LastWith(sh, id)
  {
    assert (sh + [d])[..|sh + [d]| - 1] == sh;
  }

  lemma {:induction false} OverlayAllAt(owned: seq<KidDoc>, shared: seq<KidDoc>, i: int)
    requires 0 <= i < |owned|
    ensures OverlayAll(owned, shared)[i] == Overlay(owned[i], shared)
    ensures OverlayAll(owned, shared)[i].id == owned[i].id
  {
    if i > 0 {
      OverlayAllAt(owned[1..], shared, i - 1);
    }
    LastWithId(shared, owned[i].id);
  }

  /** Overlaying keeps the owned ids, position by position. */
  lemma OverlayAllIds(owned: seq<KidDoc>, shared: seq<KidDoc>)
    requires IdsDistinct(owned)
    ensures Ids(OverlayAll(owned, shared)) == Ids(owned)
    ensures IdsDistinct(OverlayAll(owned, shared))
  {
    var over := OverlayAll(owned, shared);
    forall i | 0 <= i < |owned| ensures over[i].id == owned[i].id {
      OverlayAllAt(owned, shared, i);
    }
    forall x | x in Ids(over) ensures x in Ids(owned) {
      var e :| e in over && e.id == x;
      var i :| 0 <= i < |over| && over[i] == e;
      assert owned[i] in owned;
    }
    forall x | x in Ids(owned) ensures x in Ids(over) {
      var e :| e in owned && e.id == x;
      var i :| 0 <= i < |owned| && owned[i] == e;
      assert over[i] in over;
    }
  }

  /** Positions holding another id do not see one more shared document. */
  lemma OverlaySnocOther(owned: seq<KidDoc>, sh: seq<KidDoc>, d: KidDoc, i: int)
    requires 0 <= i < |owned| && owned[i].id != d.id
    ensures OverlayAll(owned, sh + [d])[i] == OverlayAll(owned, sh)[i]
  {
    OverlayAllAt(owned, sh, i);
    OverlayAllAt(owned, sh + [d], i);
    LastWithSnoc(sh, d, owned[i].id);
  }

  /** One more shared document `d` with an owned id not yet shared:
      `map.set` overwrites its owned position. */
  lemma OverlaySnocOwned(owned: seq<KidDoc>, sh: seq<KidDoc>, d: KidDoc)
    requires IdsDistinct(owned)
    requires d.id !in Ids(sh) && d.id in Ids(owned)
    ensures MapSet(OverlayAll(owned, sh), d) == OverlayAll(owned, sh + [d])
  {
    var before := OverlayAll(owned, sh);
    var after := OverlayAll(owned, sh + [d]);
    var e :| e in owned && e.id == d.id;
    var k :| 0 <= k < |owned| && owned[k] == e;
    OverlayAllAt(owned, sh + [d], k);
    LastWithSnoc(sh, d, d.id);
    assert after[k] == d;
    OverlayAllIds(owned, sh);
    OverlayAllAt(owned, sh, k);
    MapSetAt(before, k, d);
    forall i | 0 <= i < |owned| ensures before[k := d][i] == after[i] {
      if i != k {
        assert owned[i].id != owned[k].id;
        OverlaySnocOther(owned, sh, d, i);
      }
    }
    assert before[k := d] == after;
  }

  /** One more shared document that is not owned leaves the overlay alone. */
  lemma OverlaySnocNotOwned(owned: seq<KidDoc>, sh: seq<KidDoc>, d: KidDoc)
    requires d.id !in Ids(owned)
    ensures OverlayAll(owned, sh) == OverlayAll(owned, sh + [d])
  {
    forall i | 0 <= i < |owned| ensures OverlayAll(owned, sh + [d])[i] == OverlayAll(owned, sh)[i] {
      assert owned[i] in owned;
      OverlaySnocOther(owned, sh, d, i);
    }
  }

  lemma {:induction false} NotOwnedMembers(shared: seq<KidDoc>, owned: seq<KidDoc>)
    ensures forall e :: e in NotOwned(shared, owned) ==> e in shared && e.id !in Ids(owned)
  {
    if shared != [] {
      NotOwnedMembers(shared[..|shared| - 1], owned);
      assert forall e :: e in shared[..|shared| - 1] ==> e in shared;
    }
  }

  /** When each query returns distinct ids, the merge is the reference
      merge: a doubly listed kid shows the shared record, at the owned
      position; shared-only kids follow in their query order. */
  lemma {:induction false} MergeKidsIsReference(owned: seq<KidDoc>, shared: seq<KidDoc>)
    requires IdsDistinct(owned) && IdsDistinct(shared)
    ensures MergeKids(owned, shared) == ReferenceMerge(owned, shared)
  {
    if shared == [] {
      assert owned + shared == owned;
      DedupOfDistinct(owned);
      forall i | 0 <= i < |owned| ensures OverlayAll(owned, shared)[i] == owned[i] {
        OverlayAllAt(owned, shared, i);
      }
      assert OverlayAll(owned, shared) == owned;
    } else {
      var sh := shared[..|shared| - 1];
      var d := shared[|shared| - 1];
      assert shared == sh + [d];
      assert IdsDistinct(sh);
      assert d.id !in Ids(sh) by {
        forall e | e in sh ensures e.id != d.id {
          var k :| 0 <= k < |sh| && sh[k] == e;
        }
      }
      MergeKidsIsReference(owned, sh);
      assert (owned + shared)[..|owned + shared| - 1] == owned + sh;
      assert Dedup(owned + shared) == MapSet(OverlayAll(owned, sh) + NotOwned(sh, owned), d);
      OverlayAllIds(owned, sh);
      var rest := NotOwned(sh, owned);
      MapSetSplit(OverlayAll(owned, sh), rest, d);
      if d.id in Ids(owned) {
        OverlaySnocOwned(owned, sh, d);
      } else {
        OverlaySnocNotOwned(owned, sh, d);
        NotOwnedMembers(sh, owned);
        MapSetAbsent(rest, d);
      }
    }
  }

  // ---------------------------------------------------------------------
  // The pages that use the merge
  // ---------------------------------------------------------------------

  predicate SharesWith(k: Kid, email: string) {
    k.sharedWith.Some? && email in k.sharedWith.value
  }

  /** `where("parentId", "==", uid)` over the collection. */
  function OwnedKids(coll: seq<KidDoc>, uid: string): seq<KidDoc> {
    if coll == [] then []
    else (if coll[0].data.parentId == uid then [coll[0]] else []) + OwnedKids(coll[1..], uid)
  }

  /** `where("sharedWith", "array-contains", email)` over the collection. */
  function SharedKids(coll: seq<KidDoc>, email: string): seq<KidDoc> {
    if coll == [] then []
    else (if SharesWith(coll[0].data, email) then [coll[0]] else []) + SharedKids(coll[1..], email)
  }

  lemma {:induction false} QueryMembers(coll: seq<KidDoc>, uid: string, email: string)
    ensures forall d :: d in OwnedKids(coll, uid) <==> d in coll && d.data.parentId == uid
    ensures forall d :: d in SharedKids(coll, email) <==> d in coll && SharesWith(d.data, email)
  {
    if coll != [] {
      QueryMembers(coll[1..], uid, email);
      assert forall d :: d in coll <==> d == coll[0] || d in coll[1..];
    }
  }

  /** `getUserKids` / `fetchKids`: the kids the user owns or that are
      shared with the user's email, each once. */
  function UserKids(coll: seq<KidDoc>, uid: string, email: string): (r: seq<KidDoc>)
    ensures IdsDistinct(r)
    ensures forall id :: id in Ids(r) <==>
              exists d :: d in coll && d.id == id && (d.data.parentId == uid || SharesWith(d.data, email))
    ensures forall d :: d in r ==> d in coll && (d.data.parentId == uid || SharesWith(d.data, email))
  {
    var owned := OwnedKids(coll, uid);
    var shared := SharedKids(coll, email);
    DedupSpec(owned + shared);
    QueryMembers(coll, uid, email);
    assert forall d :: d in owned + shared <==> d in owned || d in shared;
    forall d | d in MergeKids(owned, shared) ensures d in owned + shared {
      LastWithMember(owned + shared, d.id);
    }
    MergeKids(owned, shared)
  }

  /** The label under each kid card. */
  function OwnerLabel(k: Kid, uid: string): (r: string)
    ensures r == "Owner" <==> k.parentId == uid
    ensures r == "Owner" || r == "Shared Access"
  {
    if k.parentId == uid then "Owner" else "Shared Access"
  }

  /** `handleTogglePublic`: write only `public`. Updating a missing
      document throws, and the handler only alerts. */
  function TogglePublic(s: Store, kidId: KidId, newState: bool): (r: Store)
    ensures r.Keys == s.Keys
    ensures forall id :: id in s && id != kidId ==> r[id] == s[id]
    ensures kidId in s ==> r[kidId].public == Some(newState)
    ensures kidId in s ==> r[kidId] == s[kidId].(public := r[kidId].public)
  {
    if kidId in s then s[kidId := s[kidId].(public := Some(newState))] else s
  }

  /** Toggling and toggling back restores the store. */
  lemma TogglePublicRoundTrip(s: Store, kidId: KidId, b: bool)
    requires kidId in s && s[kidId].public == Some(b)
    ensures TogglePublic(TogglePublic(s, kidId, !b), kidId, b) == s
  {
    assert TogglePublic(TogglePublic(s, kidId, !b), kidId, b)[kidId] == s[kidId];
  }

  /** The decoded claims of a valid session cookie. */
  datatype Claims = Claims(uid: string, email: Option<string>, googleIdentities: Option<seq<string>>)

  datatype SessionUser = SessionUser(uid: string, email: Option<string>)

  /** `verifySession`: no cookie, or a cookie the verifier rejects
      (`verify` returns `None` for a throw), gives null. The email comes
      from the claims, else from the first google.com identity. */
  function VerifySession(cookie: Option<string>, verify: string -> Option<Claims>): (r: Option<SessionUser>)
    ensures cookie.None? ==> r.None?
    ensures cookie.Some? ==> (r.None? <==> verify(cookie.value).None?)
    ensures r.Some? ==> r.value.uid == verify(cookie.value).value.uid
    ensures r.Some? && Truthy(verify(cookie.value).value.email) ==> r.value.email == verify(cookie.value).value.email
    ensures r.Some? && !Truthy(verify(cookie.value).value.email) ==>
              var ids := verify(cookie.value).value.googleIdentities;
              r.value.email == if ids.Some? && |ids.value| > 0 then Some(ids.value[0]) else None
  {
    if cookie.None? then None
    else match verify(cookie.value)
      case None => None
      case Some(claims) =>
        var email :=
          if Truthy(claims.email) then claims.email
          else if claims.googleIdentities.Some? && |claims.googleIdentities.value| > 0
          then Some(claims.googleIdentities.value[0])
          else None;
        Some(SessionUser(claims.uid, email))
  }

  /** What the server-rendered kids page produces. */
  datatype KidsPageResult = RedirectTo(path: string) | Render(kids: seq<KidDoc>) | QueryFails

  /** The kids page: a null session redirects to `/parent` before any
      query; an undefined email makes the shared query throw. */
  function KidsPage(cookie: Option<string>, verify: string -> Option<Claims>, coll: seq<KidDoc>): (r: KidsPageResult)
    ensures VerifySession(cookie, verify).None? <==> r == RedirectTo("/parent")
    ensures r.Render? ==> IdsDistinct(r.kids)
    ensures VerifySession(cookie, verify).Some? && VerifySession(cookie, verify).value.email.Some? ==> r.Render?
    ensures r.Render? ==> var u := VerifySession(cookie, verify).value;
              u.email.Some? && r.kids == UserKids(coll, u.uid, u.email.value)
  {
    match VerifySession(cookie, verify)
    case None => RedirectTo("/parent")
    case Some(u) => if u.email.None? then QueryFails else Render(UserKids(coll, u.uid, u.email.value))
  }

  /** The client-side dashboards (parent page and contributions page)
      query with `user.email || ''`. */
  function DashboardKids(coll: seq<KidDoc>, uid: string, email: Option<string>): (r: seq<KidDoc>)
    ensures IdsDistinct(r)
    ensures forall id :: id in Ids(r) <==>
              exists d :: d in coll && d.id == id && (d.data.parentId == uid || SharesWith(d.data, OrElse(email, "")))
    ensures forall d :: d in r ==> d in coll && (d.data.parentId == uid || SharesWith(d.data, OrElse(email, "")))
  {
    UserKids(coll, uid, OrElse(email, ""))
  }
}
