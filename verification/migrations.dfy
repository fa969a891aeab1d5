/** The functions that fill in default fields on kid documents
    (functions/src/index.ts): the `onKidCreated` trigger, the one-off
    `updateKidSlugs` endpoint and the `migrateKids` endpoint. */
module Migrations {
  import opened Common
  import opened Kids
  import opened Slugs

  /** `onKidCreated`: `created` is the snapshot of the new document. The
      update always makes the kid private and, only when the snapshot has a
      missing or empty slug, gives it the first free `base`, `base-1`, …
      If the document is gone by the time of the update, the update throws
      and nothing changes. */
  method OnKidCreated(s: Store, kidId: KidId, created: Kid) returns (r: Store)
    ensures r.Keys == s.Keys
    ensures forall id :: id in s && id != kidId ==> r[id] == s[id]
    ensures kidId !in s ==> r == s
    ensures kidId in s ==>
              && r[kidId].public == Some(false)
              && r[kidId] == s[kidId].(public := r[kidId].public, slug := r[kidId].slug)
    ensures kidId in s && Truthy(created.slug) ==> r[kidId].slug == s[kidId].slug
    ensures kidId in s && !Truthy(created.slug) ==>
              && r[kidId].slug.Some?
              && r[kidId].slug.value !in TakenSlugs(s)
              && (exists k: nat :: r[kidId].slug.value == Candidate(CreateSlug(created.name), k)
                    && forall j: nat :: j < k ==> Candidate(CreateSlug(created.name), j) in TakenSlugs(s))
              && forall id :: id in s && id != kidId ==> s[id].slug != r[kidId].slug
  {
    var newSlug: Option<string> := None;
    if !Truthy(created.slug) {
      var unique := GenerateUniqueSlug(TakenSlugs(s), created.name);
      newSlug := Some(unique);
      assert forall id :: id in s && s[id].slug.Some? ==> s[id].slug.value in TakenSlugs(s);
    }
    if kidId in s {
      var slug := if newSlug.Some? then newSlug else s[kidId].slug;
      r := s[kidId := s[kidId].(public := Some(false), slug := slug)];
    } else {
      r := s;
    }
  }

  /** `updateKidSlugs`: every kid with a missing or empty slug gets
      `createSlug(name)`, with no uniqueness check. */
  function UpdateKidSlugs(s: Store): (r: Store)
    ensures r.Keys == s.Keys
    ensures forall id :: id in s ==> r[id] == s[id].(slug := r[id].slug)
    ensures forall id :: id in s && Truthy(s[id].slug) ==> r[id].slug == s[id].slug
    ensures forall id :: id in s && !Truthy(s[id].slug) ==> r[id].slug == Some(CreateSlug(s[id].name))
    ensures forall id :: id in s ==> r[id].slug.Some? && (Truthy(s[id].slug) || IsSlug(r[id].slug.value))
  {
    map id | id in s :: if Truthy(s[id].slug) then s[id] else s[id].(slug := Some(CreateSlug(s[id].name)))
  }

  /** A second `updateKidSlugs` run changes nothing: every slug the first
      run wrote is either kept or recomputed to the same value. */
  lemma UpdateKidSlugsIdempotent(s: Store)
    ensures UpdateKidSlugs(UpdateKidSlugs(s)) == UpdateKidSlugs(s)
  {
    var s1 := UpdateKidSlugs(s);
    var s2 := UpdateKidSlugs(s1);
    forall id | id in s1 ensures s2[id] == s1[id] {
      if !Truthy(s1[id].slug) {
        assert s1[id].name == s[id].name;
        assert s1[id].slug == Some(CreateSlug(s[id].name));
      }
    }
  }

  /** `updateKidSlugs` and `migrateKids` fill in the same slug for every kid. */
  lemma UpdateKidSlugsAgreesWithMigrate(s: Store)
    ensures forall id :: id in s ==> UpdateKidSlugs(s)[id].slug == MigrateKids(s).store[id].slug
  {
  }

  /** Because `updateKidSlugs` does not probe for free names, two kids
      without slugs whose names normalise alike end up sharing a slug. */
  lemma UpdateKidSlugsCanDuplicate(a: Kid, b: Kid)
    requires a.slug == None && b.slug == None
    requires a.name == "Sam" && b.name == "sam!"
    ensures var r := UpdateKidSlugs(map["x" := a, "y" := b]);
            r["x"].slug == r["y"].slug == Some("sam")
  {
    SlugOfSam();
    SlugOfSamBang();
    var s := map["x" := a, "y" := b];
    assert s["x"] == a && s["y"] == b;
  }

  lemma SlugOfSam()
    ensures CreateSlug("Sam") == "sam"
  {
    CreateSlugMatchesReference("Sam");
    assert "Sam"[1..] == "am" && "am"[1..] == "m" && "m"[1..] == "";
    assert ReferenceSlug("m") == "m";
    assert ReferenceSlug("am") == "am";
  }

  lemma SlugOfSamBang()
    ensures CreateSlug("sam!") == "sam"
  {
    CreateSlugMatchesReference("sam!");
    assert "sam!"[1..] == "am!" && "am!"[1..] == "m!" && "m!"[1..] == "!" && "!"[1..] == "";
    assert ReferenceSlug("!") == "";
    assert ReferenceSlug("m!") == "m";
    assert ReferenceSlug("am!") == "am";
  }

  /** Which of the checks of `migrateKids` a kid fails. */
  predicate NeedsMigration(k: Kid) {
    !Truthy(k.slug) || k.sharedWith.None? || k.public.None? || k.total.None? || k.weeklyAllowance.None?
  }

  /** The updates `migrateKids` writes for one kid: each field is filled
      only when missing (or, for `sharedWith`, `total` and `weeklyAllowance`,
      of the wrong type; for `slug`, falsy). */
  function MigrateKid(k: Kid): (r: Kid)
    ensures Truthy(k.slug) ==> r.slug == k.slug
    ensures !Truthy(k.slug) ==> r.slug == Some(CreateSlug(k.name))
    ensures k.sharedWith.Some? ==> r.sharedWith == k.sharedWith
    ensures k.sharedWith.None? ==> r.sharedWith == Some([])
    ensures k.public.Some? ==> r.public == k.public
    ensures k.public.None? ==> r.public == Some(false)
    ensures k.total.Some? ==> r.total == k.total
    ensures k.total.None? ==> r.total == Some(0)
    ensures k.weeklyAllowance.Some? ==> r.weeklyAllowance == k.weeklyAllowance
    ensures k.weeklyAllowance.None? ==> r.weeklyAllowance == Some(0)
    ensures r == k.(slug := r.slug, sharedWith := r.sharedWith, public := r.public,
                    total := r.total, weeklyAllowance := r.weeklyAllowance)
    ensures !NeedsMigration(k) ==> r == k
  {
    k.(slug := if Truthy(k.slug) then k.slug else Some(CreateSlug(k.name)),
       sharedWith := if k.sharedWith.Some? then k.sharedWith else Some([]),
       public := if k.public.Some? then k.public else Some(false),
       total := if k.total.Some? then k.total else Some(0),
       weeklyAllowance := if k.weeklyAllowance.Some? then k.weeklyAllowance else Some(0))
  }

  datatype MigrationReport = MigrationReport(store: Store, migratedCount: nat)

  /** `migrateKids`: migrate every kid in one batch and count the kids that
      had something to write. */
  function MigrateKids(s: Store): (r: MigrationReport)
    ensures r.store.Keys == s.Keys
    ensures forall id :: id in s ==> r.store[id] == MigrateKid(s[id])
    ensures r.migratedCount == |set id | id in s && NeedsMigration(s[id])|
    ensures r.migratedCount <= |s|
  {
    var needing := set id | id in s && NeedsMigration(s[id]);
    assert needing <= s.Keys;
    SubsetCardinality(needing, s.Keys);
    MigrationReport(map id | id in s :: MigrateKid(s[id]), |needing|)
  }

  lemma SubsetCardinality<T>(a: set<T>, b: set<T>)
    requires a <= b
    ensures |a| <= |b|
  {
    assert b == a + (b - a);
  }

  /** After one migration the only check a kid can still fail is the slug
      check, and only with an empty slug from a name that normalises to "". */
  lemma MigrateKidLeavesOnlyEmptySlugs(k: Kid)
    ensures NeedsMigration(MigrateKid(k)) <==> MigrateKid(k).slug == Some("")
    ensures MigrateKid(k).slug == Some("") <==> !Truthy(k.slug) && CreateSlug(k.name) == ""
  {
  }

  /** A second run writes the same values again: the store is a fixed point. */
  lemma MigrateKidsIdempotent(s: Store)
    ensures MigrateKids(MigrateKids(s).store).store == MigrateKids(s).store
  {
    var s1 := MigrateKids(s).store;
    var s2 := MigrateKids(s1).store;
    forall id | id in s1 ensures s2[id] == s1[id] {
      var k := s[id];
      if CreateSlug(k.name) == "" && !Truthy(k.slug) {
        assert s1[id].slug == Some("");
      }
    }
  }

  /** The second run still counts (and rewrites) exactly the kids whose
      slug came out empty, that is whose name normalises to "". */
  lemma MigrateKidsSecondRunCount(s: Store)
    ensures MigrateKids(MigrateKids(s).store).migratedCount
         == |set id | id in s && !Truthy(s[id].slug) && CreateSlug(s[id].name) == ""|
  {
    var s1 := MigrateKids(s).store;
    var a := set id | id in s1 && NeedsMigration(s1[id]);
    var b := set id | id in s && !Truthy(s[id].slug) && CreateSlug(s[id].name) == "";
    forall id | id in s ensures NeedsMigration(s1[id]) <==> !Truthy(s[id].slug) && CreateSlug(s[id].name) == "" {
      MigrateKidLeavesOnlyEmptySlugs(s[id]);
    }
    assert a == b;
  }
}
