/** The retention rule of `prune_bucket`: which listed backup objects are deleted,
    and a bucket whose contents the pruning loop changes one deletion at a time. */
module Retention {

  const SECONDS_PER_DAY := 86400

  /** A listed object: its name and its creation time in seconds since the epoch (UTC). */
  datatype Blob = Blob(name: string, timeCreated: int)

  /** What one prune run does: the objects left in the bucket and the names deleted, in order. */
  datatype Outcome = Outcome(remaining: seq<Blob>, deleted: seq<string>)

  /** The moment `now - days`; anything created strictly before it is old. */
  function Cutoff(now: int, days: int): int {
    now - days * SECONDS_PER_DAY
  }

  predicate IsOld(b: Blob, cutoff: int) {
    b.timeCreated < cutoff
  }

  function Names(s: seq<Blob>): (r: seq<string>)
    ensures |r| == |s|
    ensures forall i :: 0 <= i < |s| ==> r[i] == s[i].name
  {
    if s == [] then [] else [s[0].name] + Names(s[1..])
  }

  /** The bucket never holds two objects of the same name. */
  predicate UniqueNames(s: seq<Blob>) {
    s == [] || (s[0].name !in Names(s[1..]) && UniqueNames(s[1..]))
  }

  /** `a` is `b` with some elements dropped, the rest in their original order. */
  predicate IsSubsequence<T(==)>(a: seq<T>, b: seq<T>) {
    if a == [] then true
    else if b == [] then false
    else (a[0] == b[0] && IsSubsequence(a[1..], b[1..])) || IsSubsequence(a, b[1..])
  }

  /** The objects of `s` the loop leaves alone: created at or after the cutoff. */
  function Survivors(s: seq<Blob>, cutoff: int): (r: seq<Blob>)
    ensures |r| <= |s|
  {
    if s == [] then []
    else if IsOld(s[0], cutoff) then Survivors(s[1..], cutoff)
    else [s[0]] + Survivors(s[1..], cutoff)
  }

  /** The objects of `s` the loop deletes: created strictly before the cutoff. */
  function Casualties(s: seq<Blob>, cutoff: int): (r: seq<Blob>)
    ensures |r| <= |s|
  {
    if s == [] then []
    else if IsOld(s[0], cutoff) then [s[0]] + Casualties(s[1..], cutoff)
    else Casualties(s[1..], cutoff)
  }

  /** `s` with every object called `name` gone: what deleting that object leaves. */
  function RemoveName(s: seq<Blob>, name: string): (r: seq<Blob>)
  {
    if s == [] then []
    else if s[0].name == name then RemoveName(s[1..], name)
    else [s[0]] + RemoveName(s[1..], name)
  }

  /** The whole prune decision on a listing: one gate on the total count, then
      every old object goes, in listing order. */
  function PruneOutcome(listing: seq<Blob>, days: int, minimumBackups: int, now: int): Outcome {
    if |listing| <= minimumBackups then Outcome(listing, [])
    else
      var cutoff := Cutoff(now, days);
      Outcome(Survivors(listing, cutoff), Names(Casualties(listing, cutoff)))
  }

  // ---------------------------------------------------------------------------
  // Lemmas about the selection

  /** An object is kept exactly when it is listed and not old. */
  lemma {:induction false} SurvivorsMembers(s: seq<Blob>, cutoff: int, b: Blob)
    ensures b in Survivors(s, cutoff) <==> b in s && !IsOld(b, cutoff)
  {
    if s != [] {
      SurvivorsMembers(s[1..], cutoff, b);
      assert s == [s[0]] + s[1..];
    }
  }

  /** An object is deleted exactly when it is listed and old. */
  lemma {:induction false} CasualtiesMembers(s: seq<Blob>, cutoff: int, b: Blob)
    ensures b in Casualties(s, cutoff) <==> b in s && IsOld(b, cutoff)
  {
    if s != [] {
      CasualtiesMembers(s[1..], cutoff, b);
      assert s == [s[0]] + s[1..];
    }
  }

  /** After deleting a name, exactly the objects of other names are left. */
  lemma {:induction false} RemoveNameMembers(s: seq<Blob>, name: string, b: Blob)
    ensures b in RemoveName(s, name) <==> b in s && b.name != name
  {
    if s != [] {
      RemoveNameMembers(s[1..], name, b);
      assert s == [s[0]] + s[1..];
    }
  }

  lemma {:induction false} NamesMembership(s: seq<Blob>, name: string)
    ensures name in Names(s) <==> exists b :: b in s && b.name == name
  {
    if s != [] {
      NamesMembership(s[1..], name);
      assert Names(s) == [s[0].name] + Names(s[1..]);
      if name in Names(s[1..]) {
        var b :| b in s[1..] && b.name == name;
        assert b in s;
      }
    }
  }

  /** Every listed object is either kept or deleted, never both, never lost:
      the two parts add up to the listing, as multisets. */
  lemma {:induction false} SurvivorsCasualtiesPartition(s: seq<Blob>, cutoff: int)
    ensures multiset(Survivors(s, cutoff)) + multiset(Casualties(s, cutoff)) == multiset(s)
    ensures |Survivors(s, cutoff)| + |Casualties(s, cutoff)| == |s|
  {
    if s != [] {
      SurvivorsCasualtiesPartition(s[1..], cutoff);
      assert s == [s[0]] + s[1..];
    }
  }

  lemma {:induction false} SubsequenceOfTail<T>(a: seq<T>, b: seq<T>)
    requires b != [] && IsSubsequence(a, b[1..])
    ensures IsSubsequence(a, b)
  {
  }

  lemma {:induction false} SubsequenceReflexive<T>(a: seq<T>)
    ensures IsSubsequence(a, a)
  {
    if a != [] {
      SubsequenceReflexive(a[1..]);
    }
  }

  /** Kept objects stay in their original relative order. */
  lemma {:induction false} SurvivorsInOrder(s: seq<Blob>, cutoff: int)
    ensures IsSubsequence(Survivors(s, cutoff), s)
  {
    if s != [] {
      SurvivorsInOrder(s[1..], cutoff);
      if IsOld(s[0], cutoff) {
        SubsequenceOfTail(Survivors(s, cutoff), s);
      }
    }
  }

  /** Deleted objects are taken in listing order. */
  lemma {:induction false} CasualtiesInOrder(s: seq<Blob>, cutoff: int)
    ensures IsSubsequence(Casualties(s, cutoff), s)
  {
    if s != [] {
      CasualtiesInOrder(s[1..], cutoff);
      if !IsOld(s[0], cutoff) {
        SubsequenceOfTail(Casualties(s, cutoff), s);
      }
    }
  }

  lemma {:induction false} NamesOfSubsequence(a: seq<Blob>, b: seq<Blob>)
    requires IsSubsequence(a, b)
    ensures IsSubsequence(Names(a), Names(b))
  {
    if a != [] {
      assert b != [];
      assert Names(a)[1..] == Names(a[1..]);
      assert Names(b)[1..] == Names(b[1..]);
      if a[0] == b[0] && IsSubsequence(a[1..], b[1..]) {
        NamesOfSubsequence(a[1..], b[1..]);
      } else {
        NamesOfSubsequence(a, b[1..]);
      }
    }
  }

  lemma {:induction false} SubsequenceMembers<T>(a: seq<T>, b: seq<T>, x: T)
    requires IsSubsequence(a, b) && x in a
    ensures x in b
  {
    assert b != [];
    if a[0] == b[0] && IsSubsequence(a[1..], b[1..]) {
      if x != a[0] {
        SubsequenceMembers(a[1..], b[1..], x);
      }
    } else {
      SubsequenceMembers(a, b[1..], x);
    }
  }

  /** No two positions of a bucket with unique names hold the same name. */
  lemma {:induction false} UniqueNamesAt(s: seq<Blob>, i: int, j: int)
    requires UniqueNames(s) && 0 <= i < j < |s|
    ensures s[i].name != s[j].name
  {
    if i == 0 {
      assert s[j] == s[1..][j - 1] && Names(s[1..])[j - 1] == s[j].name;
    } else {
      assert s[i] == s[1..][i - 1] && s[j] == s[1..][j - 1];
      UniqueNamesAt(s[1..], i - 1, j - 1);
    }
  }

  /** Dropping objects can never make two names collide. */
  lemma {:induction false} UniqueNamesOfSubsequence(a: seq<Blob>, b: seq<Blob>)
    requires IsSubsequence(a, b) && UniqueNames(b)
    ensures UniqueNames(a)
  {
    if a != [] {
      assert b != [];
      if a[0] == b[0] && IsSubsequence(a[1..], b[1..]) {
        UniqueNamesOfSubsequence(a[1..], b[1..]);
        if a[0].name in Names(a[1..]) {
          NamesOfSubsequence(a[1..], b[1..]);
          SubsequenceMembers(Names(a[1..]), Names(b[1..]), a[0].name);
        }
      } else {
        UniqueNamesOfSubsequence(a, b[1..]);
      }
    }
  }

  lemma {:induction false} RemoveNameOfConcat(a: seq<Blob>, b: seq<Blob>, name: string)
    ensures RemoveName(a + b, name) == RemoveName(a, name) + RemoveName(b, name)
  {
    if a == [] {
      assert a + b == b;
    } else {
      assert (a + b)[0] == a[0] && (a + b)[1..] == a[1..] + b;
      RemoveNameOfConcat(a[1..], b, name);
      if a[0].name == name {
        assert RemoveName(a + b, name) == RemoveName(a[1..] + b, name);
      } else {
        assert RemoveName(a + b, name) == [a[0]] + RemoveName(a[1..] + b, name);
      }
    }
  }

  lemma {:induction false} RemoveNameAbsent(s: seq<Blob>, name: string)
    requires forall b :: b in s ==> b.name != name
    ensures RemoveName(s, name) == s
  {
    if s != [] {
      assert forall b :: b in s[1..] ==> b in s;
      RemoveNameAbsent(s[1..], name);
    }
  }

  lemma {:induction false} SurvivorsSnoc(s: seq<Blob>, x: Blob, cutoff: int)
    ensures Survivors(s + [x], cutoff)
         == Survivors(s, cutoff) + (if IsOld(x, cutoff) then [] else [x])
  {
    if s != [] {
      assert (s + [x])[1..] == s[1..] + [x];
      SurvivorsSnoc(s[1..], x, cutoff);
    }
  }

  lemma {:induction false} CasualtiesSnoc(s: seq<Blob>, x: Blob, cutoff: int)
    ensures Casualties(s + [x], cutoff)
         == Casualties(s, cutoff) + (if IsOld(x, cutoff) then [x] else [])
  {
    if s != [] {
      assert (s + [x])[1..] == s[1..] + [x];
      CasualtiesSnoc(s[1..], x, cutoff);
    }
  }

  lemma {:induction false} NamesSnoc(s: seq<Blob>, x: Blob)
    ensures Names(s + [x]) == Names(s) + [x.name]
  {
    if s != [] {
      assert (s + [x])[1..] == s[1..] + [x];
      NamesSnoc(s[1..], x);
    }
  }

  lemma {:induction false} SurvivorsIdempotent(s: seq<Blob>, cutoff: int)
    ensures Survivors(Survivors(s, cutoff), cutoff) == Survivors(s, cutoff)
    ensures Casualties(Survivors(s, cutoff), cutoff) == []
  {
    if s != [] {
      SurvivorsIdempotent(s[1..], cutoff);
    }
  }

  // ---------------------------------------------------------------------------
  // Properties of the whole prune decision

  /** At or below the minimum count nothing is deleted, whatever the ages. */
  lemma NothingDeletedAtOrBelowMinimum(listing: seq<Blob>, days: int, minimumBackups: int, now: int)
    requires |listing| <= minimumBackups
    ensures PruneOutcome(listing, days, minimumBackups, now) == Outcome(listing, [])
  {
  }

  /** Above the minimum count an object is deleted exactly when it was created
      strictly before `now - days`; creation exactly at the cutoff keeps it. */
  lemma DeletedExactlyTheOld(listing: seq<Blob>, days: int, minimumBackups: int, now: int, b: Blob)
    requires |listing| > minimumBackups
    requires UniqueNames(listing)
    requires b in listing
    ensures b.name in PruneOutcome(listing, days, minimumBackups, now).deleted
        <==> b.timeCreated < now - days * SECONDS_PER_DAY
    ensures b in PruneOutcome(listing, days, minimumBackups, now).remaining
        <==> b.timeCreated >= now - days * SECONDS_PER_DAY
  {
    var cutoff := Cutoff(now, days);
    var gone := Casualties(listing, cutoff);
    SurvivorsMembers(listing, cutoff, b);
    CasualtiesMembers(listing, cutoff, b);
    NamesMembership(gone, b.name);
    if b.name in Names(gone) {
      var c :| c in gone && c.name == b.name;
      CasualtiesMembers(listing, cutoff, c);
      var i :| 0 <= i < |listing| && listing[i] == b;
      var j :| 0 <= j < |listing| && listing[j] == c;
      if i < j {
        UniqueNamesAt(listing, i, j);
      } else if j < i {
        UniqueNamesAt(listing, j, i);
      }
    }
  }

  /** Kept objects keep their relative order, deleted names follow listing
      order, and the two together account for every listed object. */
  lemma PruneKeepsOrder(listing: seq<Blob>, days: int, minimumBackups: int, now: int)
    ensures var o := PruneOutcome(listing, days, minimumBackups, now);
      && IsSubsequence(o.remaining, listing)
      && IsSubsequence(o.deleted, Names(listing))
      && |o.remaining| + |o.deleted| == |listing|
  {
    var cutoff := Cutoff(now, days);
    if |listing| <= minimumBackups {
      SubsequenceReflexive(listing);
    } else {
      SurvivorsInOrder(listing, cutoff);
      CasualtiesInOrder(listing, cutoff);
      NamesOfSubsequence(Casualties(listing, cutoff), listing);
      SurvivorsCasualtiesPartition(listing, cutoff);
    }
  }

  /** The count check is a single gate, not a running floor: once the listing is
      larger than the minimum, old objects go even if fewer than the minimum remain. */
  lemma GateIsNotAFloor(listing: seq<Blob>, days: int, minimumBackups: int, now: int)
    requires |listing| > minimumBackups
    requires forall b :: b in listing ==> b.timeCreated < now - days * SECONDS_PER_DAY
    ensures PruneOutcome(listing, days, minimumBackups, now).remaining == []
    ensures |PruneOutcome(listing, days, minimumBackups, now).deleted| == |listing|
  {
    var cutoff := Cutoff(now, days);
    SurvivorsAllOld(listing, cutoff);
    SurvivorsCasualtiesPartition(listing, cutoff);
  }

  lemma {:induction false} SurvivorsAllOld(s: seq<Blob>, cutoff: int)
    requires forall b :: b in s ==> IsOld(b, cutoff)
    ensures Survivors(s, cutoff) == []
  {
    if s != [] {
      assert s[0] in s;
      assert forall b :: b in s[1..] ==> b in s;
      SurvivorsAllOld(s[1..], cutoff);
    }
  }

  /** Eight objects, all older than a week, with the default minimum of seven:
      all eight are deleted and none remains. */
  lemma EightOldWithMinimumSevenLeavesNone(now: int)
    ensures var listing := seq(8, i requires 0 <= i < 8 => Blob("backup-" + [('0' as int + i) as char], now - 8 * SECONDS_PER_DAY));
      PruneOutcome(listing, 7, 7, now).remaining == []
      && |PruneOutcome(listing, 7, 7, now).deleted| == 8
  {
    var listing := seq(8, i requires 0 <= i < 8 => Blob("backup-" + [('0' as int + i) as char], now - 8 * SECONDS_PER_DAY));
    GateIsNotAFloor(listing, 7, 7, now);
  }

  /** A second run with the same `now` on what the first left deletes nothing
      and leaves the bucket as it was. */
  lemma PruneIdempotent(listing: seq<Blob>, days: int, minimumBackups: int, now: int)
    ensures var first := PruneOutcome(listing, days, minimumBackups, now);
      PruneOutcome(first.remaining, days, minimumBackups, now) == Outcome(first.remaining, [])
  {
    var cutoff := Cutoff(now, days);
    if |listing| > minimumBackups {
      SurvivorsIdempotent(listing, cutoff);
    }
  }

  // ---------------------------------------------------------------------------
  // The bucket whose contents the pruning loop changes

  class Bucket {
    /** The bucket's objects in listing order. */
    var objects: seq<Blob>

    ghost predicate Valid()
      reads this
    {
      UniqueNames(objects)
    }

    constructor (initial: seq<Blob>)
      requires UniqueNames(initial)
      ensures Valid() && objects == initial
    {
      objects := initial;
    }

    /** `list(bucket.list_blobs())`: a snapshot of the current listing. */
    method ListBlobs() returns (listing: seq<Blob>)
      requires Valid()
      ensures listing == objects && UniqueNames(listing)
    {
      listing := objects;
    }

    /** `blob.delete()`: removes the object of that name; `found` is false when
        there was none (the storage client raises NotFound then). */
    method Delete(name: string) returns (found: bool)
      requires Valid()
      modifies this
      ensures Valid()
      ensures found <==> name in Names(old(objects))
      ensures objects == RemoveName(old(objects), name)
    {
      NamesMembership(objects, name);
      found := name in Names(objects);
      ghost var before := objects;
      objects := RemoveName(objects, name);
      RemoveNameInOrder(before, name);
      UniqueNamesOfSubsequence(objects, before);
    }

    /** `prune_bucket(days, minimum_backups)` run at time `now`: lists the
        bucket once, returns without deleting anything when it holds at most
        `minimumBackups` objects, and otherwise deletes every old object.
        Returns the names deleted, in the order they were deleted. */
    method Prune(days: int, minimumBackups: int, now: int) returns (deleted: seq<string>)
      requires Valid()
      modifies this
      ensures Valid()
      ensures Outcome(objects, deleted) == PruneOutcome(old(objects), days, minimumBackups, now)
      ensures |old(objects)| <= minimumBackups ==> deleted == [] && objects == old(objects)
    {
      var listing := ListBlobs();
      deleted := [];
      if |listing| <= minimumBackups {
        return;
      }
      var cutoff := Cutoff(now, days);
      deleted := DeleteOld(listing, cutoff);
    }

    /** The loop of `prune_bucket`: walks the listing taken before it started and
        deletes every object created strictly before the cutoff. */
    method DeleteOld(listing: seq<Blob>, cutoff: int) returns (deleted: seq<string>)
      requires UniqueNames(listing) && objects == listing
      modifies this
      ensures Valid()
      ensures objects == Survivors(listing, cutoff)
      ensures deleted == Names(Casualties(listing, cutoff))
    {
      deleted := [];
      var i := 0;
      assert listing[0..] == listing;
      while i < |listing|
        invariant 0 <= i <= |listing|
        invariant objects == KeptSoFar(listing, i, cutoff) + listing[i..]
        invariant deleted == DeletedSoFar(listing, i, cutoff)
      {
        var gone := Visit(listing, i, cutoff);
        deleted := deleted + gone;
        i := i + 1;
      }
      LoopExit(listing, cutoff, i, objects, deleted);
    }

    /** One turn of the loop in `prune_bucket`: the `i`-th listed object is
        deleted if it is old and kept otherwise. When nothing else changes the
        bucket, the object is always still there to delete. */
    method Visit(listing: seq<Blob>, i: int, cutoff: int) returns (gone: seq<string>)
      requires UniqueNames(listing)
      requires 0 <= i < |listing| && objects == KeptSoFar(listing, i, cutoff) + listing[i..]
      modifies this
      ensures objects == KeptSoFar(listing, i + 1, cutoff) + listing[i + 1..]
      ensures gone == if IsOld(listing[i], cutoff) then [listing[i].name] else []
      ensures DeletedSoFar(listing, i + 1, cutoff) == DeletedSoFar(listing, i, cutoff) + gone
    {
      var blob := listing[i];
      assert Valid() by {
        ProgressInOrder(listing, i, cutoff);
        UniqueNamesOfSubsequence(objects, listing);
      }
      if IsOld(blob, cutoff) {
        assert blob.name in Names(objects)
            && RemoveName(objects, blob.name) == KeptSoFar(listing, i + 1, cutoff) + listing[i + 1..] by {
          NameInProgress(listing, i, cutoff);
          KeptNameDiffers(listing, i, cutoff);
          RestNameDiffers(listing, i);
          DeleteStep(listing, i, cutoff);
        }
        var found := Delete(blob.name);
        assert found;
        gone := [blob.name];
      } else {
        KeepStep(listing, i, cutoff);
        gone := [];
      }
    }
  }

  /** The survivors among the first `i` listed objects: what the loop has kept
      so far, in listing order. */
  function KeptSoFar(listing: seq<Blob>, i: int, cutoff: int): seq<Blob>
    requires 0 <= i <= |listing|
  {
    if i == 0 then []
    else KeptSoFar(listing, i - 1, cutoff) + (if IsOld(listing[i - 1], cutoff) then [] else [listing[i - 1]])
  }

  /** The names the loop has deleted after looking at the first `i` listed objects. */
  function DeletedSoFar(listing: seq<Blob>, i: int, cutoff: int): seq<string>
    requires 0 <= i <= |listing|
  {
    if i == 0 then []
    else DeletedSoFar(listing, i - 1, cutoff) + (if IsOld(listing[i - 1], cutoff) then [listing[i - 1].name] else [])
  }

  lemma {:induction false} KeptSoFarIsSurvivors(listing: seq<Blob>, i: int, cutoff: int)
    requires 0 <= i <= |listing|
    ensures KeptSoFar(listing, i, cutoff) == Survivors(listing[..i], cutoff)
  {
    if i == 0 {
      assert listing[..0] == [];
    } else {
      KeptSoFarIsSurvivors(listing, i - 1, cutoff);
      assert listing[..i] == listing[..i - 1] + [listing[i - 1]];
      SurvivorsSnoc(listing[..i - 1], listing[i - 1], cutoff);
    }
  }

  lemma {:induction false} DeletedSoFarIsCasualties(listing: seq<Blob>, i: int, cutoff: int)
    requires 0 <= i <= |listing|
    ensures DeletedSoFar(listing, i, cutoff) == Names(Casualties(listing[..i], cutoff))
  {
    if i == 0 {
      assert listing[..0] == [];
    } else {
      DeletedSoFarIsCasualties(listing, i - 1, cutoff);
      assert listing[..i] == listing[..i - 1] + [listing[i - 1]];
      CasualtiesSnoc(listing[..i - 1], listing[i - 1], cutoff);
      NamesSnoc(Casualties(listing[..i - 1], cutoff), listing[i - 1]);
    }
  }

  /** When the loop has looked at every listed object, the bucket holds the
      survivors, with unique names, and the deleted names are those of the casualties. */
  lemma LoopExit(listing: seq<Blob>, cutoff: int, i: int, objects: seq<Blob>, deleted: seq<string>)
    requires UniqueNames(listing) && i == |listing|
    requires objects == KeptSoFar(listing, i, cutoff) + listing[i..]
    requires deleted == DeletedSoFar(listing, i, cutoff)
    ensures UniqueNames(objects)
    ensures objects == Survivors(listing, cutoff)
    ensures deleted == Names(Casualties(listing, cutoff))
  {
    LoopDone(listing, cutoff);
    SurvivorsInOrder(listing, cutoff);
    UniqueNamesOfSubsequence(Survivors(listing, cutoff), listing);
  }

  /** After the last turn, what the loop has kept is the survivors and what it
      has deleted is the names of the casualties. */
  lemma LoopDone(listing: seq<Blob>, cutoff: int)
    ensures KeptSoFar(listing, |listing|, cutoff) + listing[|listing|..] == Survivors(listing, cutoff)
    ensures DeletedSoFar(listing, |listing|, cutoff) == Names(Casualties(listing, cutoff))
  {
    KeptSoFarIsSurvivors(listing, |listing|, cutoff);
    DeletedSoFarIsCasualties(listing, |listing|, cutoff);
    assert listing[..|listing|] == listing;
    assert KeptSoFar(listing, |listing|, cutoff) + listing[|listing|..] == KeptSoFar(listing, |listing|, cutoff);
  }

  /** What the loop has kept, followed by what it has not looked at yet, is a
      subsequence of the listing. */
  lemma ProgressInOrder(listing: seq<Blob>, i: int, cutoff: int)
    requires 0 <= i <= |listing|
    ensures IsSubsequence(KeptSoFar(listing, i, cutoff) + listing[i..], listing)
  {
    KeptSoFarIsSurvivors(listing, i, cutoff);
    SurvivorsInOrder(listing[..i], cutoff);
    PrefixSubsequence(Survivors(listing[..i], cutoff), listing[..i], listing[i..]);
    assert listing[..i] + listing[i..] == listing;
  }

  lemma {:induction false} RemoveNameInOrder(s: seq<Blob>, name: string)
    ensures IsSubsequence(RemoveName(s, name), s)
  {
    if s != [] {
      RemoveNameInOrder(s[1..], name);
      if s[0].name == name {
        SubsequenceOfTail(RemoveName(s, name), s);
      }
    }
  }

  /** A turn of the loop on an object that is not old changes nothing in the
      bucket: the object moves from the part not yet looked at to the kept part. */
  lemma KeepStep(listing: seq<Blob>, i: int, cutoff: int)
    requires 0 <= i < |listing| && !IsOld(listing[i], cutoff)
    ensures KeptSoFar(listing, i, cutoff) + listing[i..] == KeptSoFar(listing, i + 1, cutoff) + listing[i + 1..]
  {
    assert listing[i..] == [listing[i]] + listing[i + 1..];
    assert KeptSoFar(listing, i + 1, cutoff) == KeptSoFar(listing, i, cutoff) + [listing[i]];
  }

  /** Deleting the `i`-th listed object, when it is old, from a bucket holding
      what the loop has kept so far and then the listing from `i` on, leaves what
      it has kept followed by the listing from `i + 1` on. */
  lemma DeleteStep(listing: seq<Blob>, i: int, cutoff: int)
    requires 0 <= i < |listing| && IsOld(listing[i], cutoff)
    requires forall b :: b in KeptSoFar(listing, i, cutoff) ==> b.name != listing[i].name
    requires forall b :: b in listing[i + 1..] ==> b.name != listing[i].name
    ensures RemoveName(KeptSoFar(listing, i, cutoff) + listing[i..], listing[i].name)
         == KeptSoFar(listing, i + 1, cutoff) + listing[i + 1..]
  {
    assert listing[i..] == [listing[i]] + listing[i + 1..];
    RemoveOnly(KeptSoFar(listing, i, cutoff), listing[i], listing[i + 1..], listing[i].name);
  }

  /** The name of the `i`-th listed object is in the bucket while the loop is at `i`. */
  lemma NameInProgress(listing: seq<Blob>, i: int, cutoff: int)
    requires 0 <= i < |listing|
    ensures listing[i].name in Names(KeptSoFar(listing, i, cutoff) + listing[i..])
  {
    var s := KeptSoFar(listing, i, cutoff) + listing[i..];
    var k := |KeptSoFar(listing, i, cutoff)|;
    assert s[k] == listing[i];
    assert Names(s)[k] == listing[i].name;
  }

  /** Deleting by name the one object of that name between `a` and `b` leaves `a + b`. */
  lemma RemoveOnly(a: seq<Blob>, x: Blob, b: seq<Blob>, name: string)
    requires x.name == name
    requires forall y :: y in a ==> y.name != name
    requires forall y :: y in b ==> y.name != name
    ensures RemoveName(a + ([x] + b), name) == a + b
  {
    RemoveNameOfConcat(a, [x] + b, name);
    RemoveNameOfConcat([x], b, name);
    RemoveNameAbsent(a, name);
    RemoveNameAbsent(b, name);
    assert RemoveName([x], name) == [];
  }

  /** Every object the loop has kept so far was listed before position `i`. */
  lemma {:induction false} KeptSoFarMembers(listing: seq<Blob>, i: int, cutoff: int, b: Blob)
    requires 0 <= i <= |listing|
    requires b in KeptSoFar(listing, i, cutoff)
    ensures exists k :: 0 <= k < i && listing[k] == b
  {
    if i > 0 && b in KeptSoFar(listing, i - 1, cutoff) {
      KeptSoFarMembers(listing, i - 1, cutoff, b);
    }
  }

  /** In a listing with unique names, no object kept before position `i` shares
      the name of the `i`-th. */
  lemma KeptNameDiffers(listing: seq<Blob>, i: int, cutoff: int)
    requires UniqueNames(listing) && 0 <= i < |listing|
    ensures forall b :: b in KeptSoFar(listing, i, cutoff) ==> b.name != listing[i].name
  {
    forall b | b in KeptSoFar(listing, i, cutoff) ensures b.name != listing[i].name {
      KeptSoFarMembers(listing, i, cutoff, b);
      var k :| 0 <= k < i && listing[k] == b;
      UniqueNamesAt(listing, k, i);
    }
  }

  /** In a listing with unique names, no object after position `i` shares the
      name of the `i`-th. */
  lemma RestNameDiffers(listing: seq<Blob>, i: int)
    requires UniqueNames(listing) && 0 <= i < |listing|
    ensures forall b :: b in listing[i + 1..] ==> b.name != listing[i].name
  {
    forall b | b in listing[i + 1..] ensures b.name != listing[i].name {
      var k :| i + 1 <= k < |listing| && listing[k] == b;
      UniqueNamesAt(listing, i, k);
    }
  }

  /** Appending the same suffix to a subsequence and its sequence keeps the relation. */
  lemma {:induction false} PrefixSubsequence<T>(a: seq<T>, b: seq<T>, c: seq<T>)
    requires IsSubsequence(a, b)
    ensures IsSubsequence(a + c, b + c)
  {
    if a == [] {
      if b == [] {
        assert a + c == c && b + c == c;
        SubsequenceReflexive(c);
      } else {
        PrefixSubsequence(a, b[1..], c);
        assert (b + c)[1..] == b[1..] + c;
        SubsequenceOfTail(a + c, b + c);
      }
    } else {
      assert (a + c)[1..] == a[1..] + c;
      assert (b + c)[1..] == b[1..] + c;
      if a[0] == b[0] && IsSubsequence(a[1..], b[1..]) {
        PrefixSubsequence(a[1..], b[1..], c);
      } else {
        PrefixSubsequence(a, b[1..], c);
      }
    }
  }
}
