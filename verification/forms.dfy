/** The three forms that write a kid's name and slug: the add-kid dialog
    (app/components/AddKidForm.tsx), the inline name editor
    (app/components/KidNameEditor.tsx) and the account details panel
    (app/components/AccountDetails.tsx). Each form is a state and the
    events that change it; an availability check is an event that carries
    the store it queried, or `None` when the query failed. */
module Forms {
  import opened Common
  import opened Kids
  import opened Slugs

  // ---------------------------------------------------------------------
  // Add-kid dialog
  // ---------------------------------------------------------------------

  /** `isAvailable` is `null` until a check answers. */
  datatype AddKidState = AddKidState(name: string, slug: string, isAvailable: Option<bool>)

  datatype FormEvent = NameTyped(value: string) | SlugTyped(value: string) | Checked(lookup: Option<Store>)

  function AddKidStart(): AddKidState {
    AddKidState("", "", None)
  }

  /** `handleNameChange`: the slug is always regenerated from the name. */
  function AddKidNameChange(st: AddKidState, value: string): (r: AddKidState)
    ensures r.name == value && r.slug == CreateSlug(value) && IsSlug(r.slug)
    ensures r.isAvailable == st.isAvailable
  {
    st.(name := value, slug := CreateSlug(value))
  }

  /** `handleSlugChange`: a typed slug is normalised; the name stays. */
  function AddKidSlugChange(st: AddKidState, value: string): (r: AddKidState)
    ensures r.name == st.name && r.isAvailable == st.isAvailable
    ensures r.slug == CreateSlug(value)
    ensures IsSlug(r.slug) && (IsSlug(value) ==> r.slug == value)
  {
    assert IsSlug(value) ==> CreateSlug(value) == value by {
      if IsSlug(value) { CreateSlugFixesSlugs(value); }
    }
    st.(slug := CreateSlug(value))
  }

  /** The debounced availability check on the current slug: an empty slug
      clears the answer; a failed query leaves it; otherwise the slug is
      available exactly when no kid holds it. */
  function AddKidCheck(st: AddKidState, lookup: Option<Store>): (r: AddKidState)
    ensures r.name == st.name && r.slug == st.slug
    ensures st.slug == "" ==> r.isAvailable.None?
    ensures st.slug != "" && lookup.None? ==> r == st
    ensures st.slug != "" && lookup.Some? ==> r.isAvailable == Some(st.slug !in TakenSlugs(lookup.value))
  {
    if st.slug == "" then st.(isAvailable := None)
    else match lookup
      case None => st
      case Some(s) =>
        var taken := exists id :: id in s && s[id].slug == Some(st.slug);
        assert taken <==> st.slug in TakenSlugs(s);
        st.(isAvailable := Some(!taken))
  }

  function AddKidStep(st: AddKidState, ev: FormEvent): AddKidState {
    match ev
    case NameTyped(v) => AddKidNameChange(st, v)
    case SlugTyped(v) => AddKidSlugChange(st, v)
    case Checked(lookup) => AddKidCheck(st, lookup)
  }

  function AddKidRun(st: AddKidState, evs: seq<FormEvent>): AddKidState
    decreases |evs|
  {
    if evs == [] then st else AddKidRun(AddKidStep(st, evs[0]), evs[1..])
  }

  /** Whatever the user types, the dialog only ever holds a normalised slug. */
  lemma {:induction false} AddKidSlugStaysNormal(st: AddKidState, evs: seq<FormEvent>)
    requires IsSlug(st.slug)
    ensures IsSlug(AddKidRun(st, evs).slug)
    decreases |evs|
  {
    if evs != [] {
      AddKidSlugStaysNormal(AddKidStep(st, evs[0]), evs[1..]);
    }
  }

  /** The document the dialog adds: no allowance fields, an empty ledger. */
  function NewKid(name: string, slug: string, uid: string): (k: Kid)
    ensures Consistent(k) && k.transactions == []
  {
    Kid(name, Some(slug), uid, Some([]), Some(false), Some(0), None, None, [])
  }

  /** `handleSubmit`: the guard needs a name, a slug and a check that said
      "available"; `addDoc` then stores the kid under a fresh id. The slug
      is not looked up again at this point. */
  function AddKidSubmit(s: Store, st: AddKidState, uid: string, newId: KidId): (e: Effect)
    ensures e.outcome != Alerted
    ensures e.outcome == Skipped <==> st.name == "" || st.slug == "" || st.isAvailable != Some(true)
    ensures e.outcome == Skipped ==> e.store == s
    ensures e.outcome == Done ==>
              && e.store.Keys == s.Keys + {newId}
              && (forall id :: id in s && id != newId ==> e.store[id] == s[id])
              && e.store[newId].name == st.name
              && e.store[newId].slug == Some(st.slug)
              && e.store[newId].parentId == uid
              && e.store[newId].public == Some(false)
              && e.store[newId].sharedWith == Some([])
              && e.store[newId].total == Some(0)
              && e.store[newId].transactions == []
              && Consistent(e.store[newId])
  {
    if st.name == "" || st.slug == "" || st.isAvailable != Some(true) then Effect(s, Skipped)
    else Effect(s[newId := NewKid(st.name, st.slug, uid)], Done)
  }

  /** A check that said "available" is trusted at submit time, even when
      another kid has taken the slug since: both kids then hold it. */
  lemma AddKidTrustsEarlierCheck(s0: Store, s: Store, st: AddKidState, uid: string, newId: KidId, other: KidId)
    requires st.name != "" && st.slug != "" && st.slug !in TakenSlugs(s0)
    requires other in s && other != newId && s[other].slug == Some(st.slug)
    ensures var e := AddKidSubmit(s, AddKidCheck(st, Some(s0)), uid, newId);
            && e.outcome == Done
            && e.store[newId].slug == e.store[other].slug
  {
  }

  // ---------------------------------------------------------------------
  // Inline name editor
  // ---------------------------------------------------------------------

  /** The editor opened on a kid whose stored name and slug are
      `initialName` and `initialSlug`. */
  datatype EditorState = EditorState(
    initialName: string,
    initialSlug: string,
    name: string,
    slug: string,
    isAvailable: Option<bool>)

  function EditorStart(initialName: string, initialSlug: string): EditorState {
    EditorState(initialName, initialSlug, initialName, initialSlug, None)
  }

  /** `handleNameChange`: the slug is regenerated only while it still equals
      the stored slug. */
  function EditorNameChange(st: EditorState, value: string): (r: EditorState)
    ensures r.name == value
    ensures st.slug == st.initialSlug ==> r.slug == CreateSlug(value)
    ensures st.slug != st.initialSlug ==> r.slug == st.slug
    ensures r == st.(name := r.name, slug := r.slug)
  {
    if st.slug == st.initialSlug then st.(name := value, slug := CreateSlug(value))
    else st.(name := value)
  }

  function EditorSlugChange(st: EditorState, value: string): (r: EditorState)
    ensures r.slug == CreateSlug(value)
    ensures IsSlug(r.slug) && (IsSlug(value) ==> r.slug == value)
    ensures r == st.(slug := r.slug)
  {
    assert IsSlug(value) ==> CreateSlug(value) == value by {
      if IsSlug(value) { CreateSlugFixesSlugs(value); }
    }
    st.(slug := CreateSlug(value))
  }

  /** `checkSlugAvailability`: an empty slug and the stored slug count as
      available without a query; a failed query leaves the answer. */
  function EditorCheck(st: EditorState, lookup: Option<Store>): (r: EditorState)
    ensures r == st.(isAvailable := r.isAvailable)
    ensures st.slug == "" || st.slug == st.initialSlug ==> r.isAvailable == Some(true)
    ensures st.slug != "" && st.slug != st.initialSlug && lookup.None? ==> r == st
    ensures st.slug != "" && st.slug != st.initialSlug && lookup.Some? ==>
              r.isAvailable == Some(st.slug !in TakenSlugs(lookup.value))
  {
    if st.slug == "" || st.slug == st.initialSlug then st.(isAvailable := Some(true))
    else match lookup
      case None => st
      case Some(s) =>
        var taken := exists id :: id in s && s[id].slug == Some(st.slug);
        assert taken <==> st.slug in TakenSlugs(s);
        st.(isAvailable := Some(!taken))
  }

  function EditorStep(st: EditorState, ev: FormEvent): EditorState {
    match ev
    case NameTyped(v) => EditorNameChange(st, v)
    case SlugTyped(v) => EditorSlugChange(st, v)
    case Checked(lookup) => EditorCheck(st, lookup)
  }

  function EditorRun(st: EditorState, evs: seq<FormEvent>): EditorState
    decreases |evs|
  {
    if evs == [] then st else EditorRun(EditorStep(st, evs[0]), evs[1..])
  }

  /** The editor holds either the stored slug (which may predate
      normalisation) or a normalised one, and never forgets what it was
      opened on. */
  lemma {:induction false} EditorSlugStaysNormal(st: EditorState, evs: seq<FormEvent>)
    requires st.slug == st.initialSlug || IsSlug(st.slug)
    ensures var r := EditorRun(st, evs);
            && (r.slug == r.initialSlug || IsSlug(r.slug))
            && r.initialSlug == st.initialSlug && r.initialName == st.initialName
    decreases |evs|
  {
    if evs != [] {
      EditorSlugStaysNormal(EditorStep(st, evs[0]), evs[1..]);
    }
  }

  /** Once a keystroke has moved the slug off the stored one, further name
      edits no longer touch it: the slug follows the name for one edit. */
  lemma EditorSlugFollowsNameOnce(initialName: string, initialSlug: string, v1: string, v2: string)
    requires CreateSlug(v1) != initialSlug
    ensures var r := EditorNameChange(EditorNameChange(EditorStart(initialName, initialSlug), v1), v2);
            r.name == v2 && r.slug == CreateSlug(v1)
  {
  }

  /** The write, and where the page goes next. */
  datatype EditorResult = EditorResult(effect: Effect, redirect: Option<string>)

  /** `handleSubmit`: a name, a slug, and either a positive check or the
      stored slug are needed. Only `name` and `slug` are written; a changed
      slug moves the page to the kid's new address. Updating a missing kid
      throws and alerts. */
  function EditorSubmit(s: Store, kidId: KidId, st: EditorState): (r: EditorResult)
    ensures r.effect.outcome == Skipped <==>
              st.name == "" || st.slug == "" || (st.isAvailable != Some(true) && st.slug != st.initialSlug)
    ensures r.effect.outcome != Done ==> r.effect.store == s && r.redirect.None?
    ensures r.effect.outcome == Alerted <==> r.effect.outcome != Skipped && kidId !in s
    ensures r.effect.outcome == Done ==>
              && r.effect.store.Keys == s.Keys
              && (forall id :: id in s && id != kidId ==> r.effect.store[id] == s[id])
              && r.effect.store[kidId] == s[kidId].(name := st.name, slug := Some(st.slug))
              && (r.redirect.Some? <==> st.slug != st.initialSlug)
              && (r.redirect.Some? ==> r.redirect.value == "/parent/kid/" + st.slug)
  {
    if st.name == "" || st.slug == "" || (st.isAvailable != Some(true) && st.slug != st.initialSlug) then
      EditorResult(Effect(s, Skipped), None)
    else if kidId !in s then
      EditorResult(Effect(s, Alerted), None)
    else
      var written := s[kidId := s[kidId].(name := st.name, slug := Some(st.slug))];
      EditorResult(Effect(written, Done), if st.slug != st.initialSlug then Some("/parent/kid/" + st.slug) else None)
  }

  /** Saving an editor opened on a kid's stored name and slug, without edits,
      rewrites the same values: the store is unchanged and the page stays. */
  lemma EditorSaveUnchanged(s: Store, kidId: KidId)
    requires kidId in s && s[kidId].name != "" && s[kidId].slug.Some? && s[kidId].slug.value != ""
    ensures var r := EditorSubmit(s, kidId, EditorStart(s[kidId].name, s[kidId].slug.value));
            r.effect == Effect(s, Done) && r.redirect.None?
  {
    var k := s[kidId];
    assert k.(name := k.name, slug := Some(k.slug.value)) == k;
    assert s[kidId := k] == s;
  }

  // ---------------------------------------------------------------------
  // Account details panel
  // ---------------------------------------------------------------------

  /** `handleSave`: an empty name or slug alerts without writing; otherwise
      both are written exactly as typed. */
  function SaveAccountDetails(s: Store, kidId: KidId, name: string, slug: string): (e: Effect)
    ensures e.outcome != Skipped
    ensures e.outcome == Done <==> name != "" && slug != "" && kidId in s
    ensures e.outcome == Alerted ==> e.store == s
    ensures e.outcome == Done ==>
              && e.store.Keys == s.Keys
              && (forall id :: id in s && id != kidId ==> e.store[id] == s[id])
              && e.store[kidId] == s[kidId].(name := name, slug := Some(slug))
  {
    if name == "" || slug == "" then Effect(s, Alerted)
    else if kidId !in s then Effect(s, Alerted)
    else Effect(s[kidId := s[kidId].(name := name, slug := Some(slug))], Done)
  }

  /** Saving the same details twice leaves the store as saving them once. */
  lemma SaveAccountDetailsIdempotent(s: Store, kidId: KidId, name: string, slug: string)
    ensures var e1 := SaveAccountDetails(s, kidId, name, slug);
            var e2 := SaveAccountDetails(e1.store, kidId, name, slug);
            e2.store == e1.store && e2.outcome == e1.outcome
  {
    var e1 := SaveAccountDetails(s, kidId, name, slug);
    if e1.outcome == Done {
      var k := e1.store[kidId];
      assert k.(name := name, slug := Some(slug)) == k;
      assert e1.store[kidId := k] == e1.store;
    }
  }

  /** Saving the values the panel was opened with writes nothing new. */
  lemma SaveAccountDetailsCurrentValues(s: Store, kidId: KidId)
    requires kidId in s && s[kidId].name != "" && Truthy(s[kidId].slug)
    ensures SaveAccountDetails(s, kidId, s[kidId].name, s[kidId].slug.value) == Effect(s, Done)
  {
    var k := s[kidId];
    assert k.(name := k.name, slug := Some(k.slug.value)) == k;
    assert s[kidId := k] == s;
  }

  /** The panel neither normalises nor checks the slug: a slug another kid
      holds is written as is, and so is one with characters `createSlug`
      would drop. */
  lemma SaveAccountDetailsCanDuplicate(s: Store, kidId: KidId, other: KidId, name: string)
    requires kidId in s && other in s && other != kidId && name != ""
    requires Truthy(s[other].slug)
    ensures var e := SaveAccountDetails(s, kidId, name, s[other].slug.value);
            e.outcome == Done && e.store[kidId].slug == e.store[other].slug
  {
  }

  lemma SaveAccountDetailsKeepsRawSlug(s: Store, kidId: KidId)
    requires kidId in s
    ensures var e := SaveAccountDetails(s, kidId, "Sam", "Sam!");
            e.outcome == Done && e.store[kidId].slug == Some("Sam!") && !IsSlug(e.store[kidId].slug.value)
  {
    assert "Sam!"[0] == 'S' && !IsSlugChar('S');
  }
}
