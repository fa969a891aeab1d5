/** Sharing a kid's account with another parent's email
    (app/components/ShareAccess.tsx) through Firestore's array operators. */
module Sharing {
  import opened Common
  import opened Kids
  import opened KidLists

  predicate NoDup(l: seq<string>) {
    forall i, j :: 0 <= i < j < |l| ==> l[i] != l[j]
  }

  /** `arrayUnion(e)` applied to a field: a missing (or non-array) field
      becomes `[e]`; otherwise `e` is appended unless already present. */
  function ArrayUnion(field: Option<seq<string>>, e: string): (r: seq<string>)
    ensures e in r
    ensures forall x :: x in r <==> x == e || (field.Some? && x in field.value)
    ensures field.Some? ==> field.value <= r
    ensures field.Some? && e in field.value ==> r == field.value
    ensures field.Some? && NoDup(field.value) ==> NoDup(r)
  {
    match field
    case None => [e]
    case Some(l) => if e in l then l else l + [e]
  }

  /** `arrayRemove(e)` applied to a field: every copy of `e` goes; a missing
      (or non-array) field becomes `[]`. */
  function ArrayRemove(field: Option<seq<string>>, e: string): (r: seq<string>)
    ensures e !in r
    ensures forall x :: x in r <==> x != e && field.Some? && x in field.value
    ensures field.Some? && e !in field.value ==> r == field.value
    ensures field.Some? && NoDup(field.value) ==> NoDup(r)
    decreases if field.Some? then |field.value| else 0
  {
    match field
    case None => []
    case Some(l) =>
      if l == [] then []
      else
        var rest := ArrayRemove(Some(l[1..]), e);
        assert forall x :: x in l <==> x == l[0] || x in l[1..];
        assert NoDup(l) ==> NoDup(l[1..]) && l[0] !in l[1..] by {
          if NoDup(l) {
            forall k | 0 <= k < |l[1..]| ensures l[1..][k] != l[0] {
              assert l[1..][k] == l[k + 1];
            }
          }
        }
        if l[0] == e then rest else [l[0]] + rest
  }

  /** `handleShare`: an empty email does nothing; a missing kid makes
      `updateDoc` throw and the handler alert; otherwise the email joins
      `sharedWith`, which is the only field written. */
  function Share(s: Store, kidId: KidId, email: string): (e: Effect)
    ensures email == "" ==> e == Effect(s, Skipped)
    ensures email != "" && kidId !in s ==> e == Effect(s, Alerted)
    ensures e.outcome == Done <==> email != "" && kidId in s
    ensures e.store.Keys == s.Keys
    ensures forall id :: id in s && id != kidId ==> e.store[id] == s[id]
    ensures e.outcome == Done ==>
              && SharesWith(e.store[kidId], email)
              && e.store[kidId] == s[kidId].(sharedWith := e.store[kidId].sharedWith)
              && forall x :: SharesWith(e.store[kidId], x) <==> x == email || SharesWith(s[kidId], x)
  {
    if email == "" then Effect(s, Skipped)
    else if kidId !in s then Effect(s, Alerted)
    else
      var k := s[kidId];
      Effect(s[kidId := k.(sharedWith := Some(ArrayUnion(k.sharedWith, email)))], Done)
  }

  /** `handleRevoke`: nothing without confirmation; a missing kid alerts;
      otherwise every copy of the email leaves `sharedWith`. There is no
      empty-email guard here. */
  function Revoke(s: Store, kidId: KidId, email: string, confirmed: bool): (e: Effect)
    ensures !confirmed ==> e == Effect(s, Skipped)
    ensures confirmed && kidId !in s ==> e == Effect(s, Alerted)
    ensures e.outcome == Done <==> confirmed && kidId in s
    ensures e.store.Keys == s.Keys
    ensures forall id :: id in s && id != kidId ==> e.store[id] == s[id]
    ensures e.outcome == Done ==>
              && !SharesWith(e.store[kidId], email)
              && e.store[kidId] == s[kidId].(sharedWith := e.store[kidId].sharedWith)
              && forall x :: SharesWith(e.store[kidId], x) <==> x != email && SharesWith(s[kidId], x)
  {
    if !confirmed then Effect(s, Skipped)
    else if kidId !in s then Effect(s, Alerted)
    else
      var k := s[kidId];
      Effect(s[kidId := k.(sharedWith := Some(ArrayRemove(k.sharedWith, email)))], Done)
  }

  /** Removing what was just added restores a list that lacked it. */
  lemma {:induction false} RemoveAfterUnion(l: seq<string>, e: string)
    requires e !in l
    ensures ArrayRemove(Some(ArrayUnion(Some(l), e)), e) == l
  {
    RemoveSnoc(l, e);
  }

  lemma {:induction false} RemoveSnoc(l: seq<string>, e: string)
    requires e !in l
    ensures ArrayRemove(Some(l + [e]), e) == l
  {
    if l == [] {
      assert ArrayRemove(Some([e]), e) == ArrayRemove(Some([e][1..]), e);
    } else {
      assert (l + [e])[1..] == l[1..] + [e];
      assert l[1..] + [e] != [];
      RemoveSnoc(l[1..], e);
      assert l == [l[0]] + l[1..];
    }
  }

  /** Sharing with a new email and then revoking it (confirmed) gives back
      the store as it was, when the kid already had a sharing list. */
  lemma ShareThenRevokeRestores(s: Store, kidId: KidId, email: string)
    requires kidId in s && email != ""
    requires s[kidId].sharedWith.Some? && email !in s[kidId].sharedWith.value
    ensures Revoke(Share(s, kidId, email).store, kidId, email, true).store == s
  {
    RemoveAfterUnion(s[kidId].sharedWith.value, email);
    var s2 := Revoke(Share(s, kidId, email).store, kidId, email, true).store;
    assert s2[kidId] == s[kidId];
  }

  /** Sharing twice with the same email writes the same list as sharing once. */
  lemma ShareIdempotent(s: Store, kidId: KidId, email: string)
    ensures Share(Share(s, kidId, email).store, kidId, email).store == Share(s, kidId, email).store
  {
    if email != "" && kidId in s {
      var s1 := Share(s, kidId, email).store;
      assert Share(s1, kidId, email).store[kidId] == s1[kidId];
    }
  }
}
