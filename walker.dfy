/**
 * `SafeEnumerateFiles`: a depth-first walk that collects the files matching
 * one pattern, absorbing `UnauthorizedAccessException` at the file listing,
 * at the subdirectory listing and around each recursive call, and letting
 * every other exception end the whole walk.
 */
module Walker {
  import opened Wrappers
  import opened Seqs
  import opened FileTree

  /** The walk as the source performs it: the file listing, the subdirectory
      listing, then the loop over the subdirectories. */
  function Walk(d: Dir, pattern: string): Result<seq<Path>, Fault>
    decreases d, 1
  {
    var listing := EnumerateFiles(d, pattern);
    if listing.Err? && listing.error.OtherError? then listing
    else
      var files := if listing.Ok? then listing.value else [];
      match d.subdirListing
      case Denied(_) => Ok(files)
      case Faulted(m) => Err(OtherError(m))
      case Listable => WalkChildren(d.subdirs, pattern, files)
  }

  /** The loop over the subdirectories, with the `try`/`catch` around each
      recursive call: `acc` is the list being built with `AddRange`. */
  function WalkChildren(ds: seq<Dir>, pattern: string, acc: seq<Path>): Result<seq<Path>, Fault>
    decreases ds, 0
  {
    if ds == [] then Ok(acc)
    else
      match Walk(ds[0], pattern)
      case Ok(found) => WalkChildren(ds[1..], pattern, acc + found)
      case Err(AccessDenied(_)) => WalkChildren(ds[1..], pattern, acc)
      case Err(OtherError(m)) => Err(OtherError(m))
  }

  // ---------------------------------------------------------------------
  // Reference definitions: what a walk can reach, and where it breaks.

  /** Some listing that the walk reaches fails with an exception other than
      `UnauthorizedAccessException`. */
  predicate Faulty(d: Dir)
    decreases d, 1
  {
    || d.fileListing.Faulted?
    || d.subdirListing.Faulted?
    || (d.subdirListing.Listable? && AnyFaulty(d.subdirs))
  }

  predicate AnyFaulty(ds: seq<Dir>)
    decreases ds, 0
  {
    ds != [] && (Faulty(ds[0]) || AnyFaulty(ds[1..]))
  }

  /** The message of the first such failure in depth-first order. */
  function FirstFault(d: Dir): string
    requires Faulty(d)
    decreases d, 1
  {
    if d.fileListing.Faulted? then d.fileListing.message
    else if d.subdirListing.Faulted? then d.subdirListing.message
    else FirstFaultIn(d.subdirs)
  }

  function FirstFaultIn(ds: seq<Dir>): string
    requires AnyFaulty(ds)
    decreases ds, 0
  {
    if Faulty(ds[0]) then FirstFault(ds[0]) else FirstFaultIn(ds[1..])
  }

  /** The directory's own matches, or nothing when its file listing is refused. */
  function OwnMatches(d: Dir, pattern: string): seq<Path>
  {
    if d.fileListing.Listable? then MatchingFiles(d.files, pattern) else []
  }

  /** The matches in the part of the tree whose listings are not refused, in
      depth-first pre-order: a directory's own files, then each subdirectory's. */
  function Visible(d: Dir, pattern: string): seq<Path>
    decreases d, 1
  {
    OwnMatches(d, pattern) + (if d.subdirListing.Listable? then VisibleIn(d.subdirs, pattern) else [])
  }

  function VisibleIn(ds: seq<Dir>, pattern: string): seq<Path>
    decreases ds, 0
  {
    if ds == [] then [] else Visible(ds[0], pattern) + VisibleIn(ds[1..], pattern)
  }

  /** No listing anywhere in the tree is refused or fails. */
  predicate FullyAccessible(d: Dir)
    decreases d, 1
  {
    d.fileListing.Listable? && d.subdirListing.Listable? && AllAccessible(d.subdirs)
  }

  predicate AllAccessible(ds: seq<Dir>)
    decreases ds, 0
  {
    ds == [] || (FullyAccessible(ds[0]) && AllAccessible(ds[1..]))
  }

  /** Every file of the tree, in depth-first pre-order. */
  function AllFiles(d: Dir): seq<Path>
    decreases d, 1
  {
    d.files + AllFilesIn(d.subdirs)
  }

  function AllFilesIn(ds: seq<Dir>): seq<Path>
    decreases ds, 0
  {
    if ds == [] then [] else AllFiles(ds[0]) + AllFilesIn(ds[1..])
  }

  // ---------------------------------------------------------------------
  // What the walk returns.

  /** The walk fails exactly when it reaches a non-access-denied failure, and
      then with the first one; otherwise it returns every visible match in
      depth-first order. */
  lemma {:induction false} WalkSpec(d: Dir, pattern: string)
    ensures Walk(d, pattern) == if Faulty(d) then Err(OtherError(FirstFault(d))) else Ok(Visible(d, pattern))
    decreases d, 1
  {
    if !d.fileListing.Faulted? && d.subdirListing.Listable? {
      WalkChildrenSpec(d.subdirs, pattern, OwnMatches(d, pattern));
    } else {
      assert OwnMatches(d, pattern) + [] == OwnMatches(d, pattern);
    }
  }

  lemma {:induction false} WalkChildrenSpec(ds: seq<Dir>, pattern: string, acc: seq<Path>)
    ensures WalkChildren(ds, pattern, acc) ==
            if AnyFaulty(ds) then Err(OtherError(FirstFaultIn(ds))) else Ok(acc + VisibleIn(ds, pattern))
    decreases ds, 0
  {
    if ds == [] {
      assert acc + [] == acc;
    } else {
      WalkSpec(ds[0], pattern);
      if Faulty(ds[0]) {
        FaultyHead(ds, pattern, acc);
      } else {
        var next := acc + Visible(ds[0], pattern);
        WalkChildrenStep(ds, pattern, acc, Visible(ds[0], pattern));
        WalkChildrenSpec(ds[1..], pattern, next);
        CleanHeadFaults(ds);
        if !AnyFaulty(ds[1..]) {
          VisibleInStep(ds, pattern);
          assert next + VisibleIn(ds[1..], pattern) == acc + VisibleIn(ds, pattern);
        }
      }
    }
  }

  lemma FaultyHead(ds: seq<Dir>, pattern: string, acc: seq<Path>)
    requires ds != [] && Faulty(ds[0]) && Walk(ds[0], pattern) == Err(OtherError(FirstFault(ds[0])))
    ensures AnyFaulty(ds) && WalkChildren(ds, pattern, acc) == Err(OtherError(FirstFaultIn(ds)))
  {
  }

  lemma WalkChildrenStep(ds: seq<Dir>, pattern: string, acc: seq<Path>, found: seq<Path>)
    requires ds != [] && Walk(ds[0], pattern) == Ok(found)
    ensures WalkChildren(ds, pattern, acc) == WalkChildren(ds[1..], pattern, acc + found)
  {
  }

  /** One step of the loop over the subdirectories, at position `i`. */
  lemma WalkChildrenAt(ds: seq<Dir>, i: nat, pattern: string, acc: seq<Path>)
    requires i < |ds|
    ensures Walk(ds[i], pattern).Ok? ==>
              WalkChildren(ds[i..], pattern, acc) == WalkChildren(ds[i + 1..], pattern, acc + Walk(ds[i], pattern).value)
    ensures Walk(ds[i], pattern).Err? && Walk(ds[i], pattern).error.AccessDenied? ==>
              WalkChildren(ds[i..], pattern, acc) == WalkChildren(ds[i + 1..], pattern, acc)
    ensures Walk(ds[i], pattern).Err? && Walk(ds[i], pattern).error.OtherError? ==>
              WalkChildren(ds[i..], pattern, acc) == Walk(ds[i], pattern)
  {
    assert ds[i..][1..] == ds[i + 1..];
  }

  lemma CleanHeadFaults(ds: seq<Dir>)
    requires ds != [] && !Faulty(ds[0])
    ensures AnyFaulty(ds) == AnyFaulty(ds[1..])
    ensures AnyFaulty(ds) ==> FirstFaultIn(ds) == FirstFaultIn(ds[1..])
  {
  }

  lemma VisibleInStep(ds: seq<Dir>, pattern: string)
    requires ds != []
    ensures VisibleIn(ds, pattern) == Visible(ds[0], pattern) + VisibleIn(ds[1..], pattern)
  {
  }

  /** The walk is never ended by an access-denied failure: every one is
      absorbed where it occurs, so the `catch` around the recursive call never
      sees one coming out of the callee. */
  lemma WalkNeverDenied(d: Dir, pattern: string)
    ensures Walk(d, pattern).Err? ==> Walk(d, pattern).error.OtherError?
  {
    WalkSpec(d, pattern);
  }

  /** Other failures abort: the walk fails if and only if some reached listing
      fails with a non-access-denied exception, and a failed walk carries no
      partial result. */
  lemma WalkFailsIffFaulty(d: Dir, pattern: string)
    ensures Walk(d, pattern).Err? <==> Faulty(d)
    ensures Faulty(d) ==> Walk(d, pattern) == Err(OtherError(FirstFault(d)))
  {
    WalkSpec(d, pattern);
  }

  /** A failure deep in any subdirectory aborts the walk of every ancestor. */
  lemma {:induction false} FaultInSubdirAborts(d: Dir, i: nat, pattern: string)
    requires !d.fileListing.Faulted? && d.subdirListing.Listable?
    requires i < |d.subdirs| && Faulty(d.subdirs[i])
    ensures Walk(d, pattern).Err?
  {
    AnyFaultyAt(d.subdirs, i);
    WalkSpec(d, pattern);
  }

  lemma {:induction false} AnyFaultyAt(ds: seq<Dir>, i: nat)
    requires i < |ds| && Faulty(ds[i])
    ensures AnyFaulty(ds)
  {
    if i > 0 {
      AnyFaultyAt(ds[1..], i - 1);
    }
  }

  /** Walk order: a directory whose listings both succeed contributes its own
      matches first, then the walks of its subdirectories in enumeration order. */
  lemma WalkOrder(d: Dir, pattern: string)
    requires d.fileListing.Listable? && d.subdirListing.Listable? && !Faulty(d)
    ensures Walk(d, pattern) == Ok(MatchingFiles(d.files, pattern) + VisibleIn(d.subdirs, pattern))
    ensures d.subdirs != [] ==>
              Walk(d.subdirs[0], pattern) == Ok(Visible(d.subdirs[0], pattern)) &&
              VisibleIn(d.subdirs, pattern) == Visible(d.subdirs[0], pattern) + VisibleIn(d.subdirs[1..], pattern)
  {
    WalkSpec(d, pattern);
    if d.subdirs != [] {
      WalkSpec(d.subdirs[0], pattern);
    }
  }

  /** A refused file listing is as if the directory had no files. */
  lemma FilesDeniedActsEmpty(d: Dir, pattern: string)
    requires d.fileListing.Denied?
    ensures Walk(d, pattern) == Walk(d.(files := [], fileListing := Listable), pattern)
    ensures d.subdirListing.Listable? ==> Walk(d, pattern) == WalkChildren(d.subdirs, pattern, [])
  {
    WalkSpec(d, pattern);
    WalkSpec(d.(files := [], fileListing := Listable), pattern);
    if d.subdirListing.Listable? {
      WalkChildrenSpec(d.subdirs, pattern, []);
    }
  }

  /** A refused subdirectory listing is as if the directory had no
      subdirectories: the walk returns exactly its own matches. */
  lemma SubdirsDeniedActsEmpty(d: Dir, pattern: string)
    requires d.subdirListing.Denied?
    ensures Walk(d, pattern) == Walk(d.(subdirs := [], subdirListing := Listable), pattern)
    ensures !d.fileListing.Faulted? ==> Walk(d, pattern) == Ok(OwnMatches(d, pattern))
  {
    WalkSpec(d, pattern);
    WalkSpec(d.(subdirs := [], subdirListing := Listable), pattern);
  }

  lemma {:induction false} VisibleInJoin(a: seq<Dir>, b: seq<Dir>, pattern: string)
    ensures VisibleIn(a + b, pattern) == VisibleIn(a, pattern) + VisibleIn(b, pattern)
  {
    if a == [] {
      assert a + b == b;
    } else {
      assert (a + b)[0] == a[0] && (a + b)[1..] == a[1..] + b;
      VisibleInJoin(a[1..], b, pattern);
    }
  }

  lemma {:induction false} AnyFaultyJoin(a: seq<Dir>, b: seq<Dir>)
    ensures AnyFaulty(a + b) <==> AnyFaulty(a) || AnyFaulty(b)
  {
    if a == [] {
      assert a + b == b;
    } else {
      assert (a + b)[0] == a[0] && (a + b)[1..] == a[1..] + b;
      AnyFaultyJoin(a[1..], b);
    }
  }

  lemma {:induction false} FirstFaultJoin(a: seq<Dir>, b: seq<Dir>)
    requires AnyFaulty(a) || AnyFaulty(b)
    ensures AnyFaulty(a + b)
    ensures FirstFaultIn(a + b) == if AnyFaulty(a) then FirstFaultIn(a) else FirstFaultIn(b)
  {
    AnyFaultyJoin(a, b);
    if a == [] {
      assert a + b == b;
    } else {
      assert (a + b)[0] == a[0] && (a + b)[1..] == a[1..] + b;
      if !Faulty(a[0]) {
        FirstFaultJoin(a[1..], b);
      }
    }
  }

  /** Siblings survive a refused subtree: a subdirectory whose listings are
      both refused drops out, and the matches gathered before it and the walks
      of the siblings after it are exactly as if it were not there. */
  lemma DeniedSubtreeDropped(d: Dir, i: nat, pattern: string)
    requires d.subdirListing.Listable? && i < |d.subdirs|
    requires d.subdirs[i].fileListing.Denied? && d.subdirs[i].subdirListing.Denied?
    ensures Walk(d, pattern) == Walk(d.(subdirs := d.subdirs[..i] + d.subdirs[i + 1..]), pattern)
  {
    var ds := d.subdirs;
    var rest := ds[..i] + ds[i + 1..];
    assert ds == ds[..i] + ds[i..];
    assert ds[i..][0] == ds[i] && ds[i..][1..] == ds[i + 1..];
    assert !Faulty(ds[i]) && Visible(ds[i], pattern) == [];
    assert VisibleIn(ds[i..], pattern) == VisibleIn(ds[i + 1..], pattern);
    assert AnyFaulty(ds[i..]) == AnyFaulty(ds[i + 1..]);
    VisibleInJoin(ds[..i], ds[i..], pattern);
    VisibleInJoin(ds[..i], ds[i + 1..], pattern);
    AnyFaultyJoin(ds[..i], ds[i..]);
    AnyFaultyJoin(ds[..i], ds[i + 1..]);
    if AnyFaulty(ds) {
      FirstFaultJoin(ds[..i], ds[i..]);
      FirstFaultJoin(ds[..i], ds[i + 1..]);
      assert AnyFaulty(ds[i..]) ==> FirstFaultIn(ds[i..]) == FirstFaultIn(ds[i + 1..]);
    }
    WalkSpec(d, pattern);
    WalkSpec(d.(subdirs := rest), pattern);
  }

  lemma {:induction false} MatchingAllFiles(d: Dir, pattern: string)
    requires FullyAccessible(d)
    ensures Visible(d, pattern) == MatchingFiles(AllFiles(d), pattern)
    ensures !Faulty(d)
    decreases d, 1
  {
    MatchingAllFilesIn(d.subdirs, pattern);
    FilterConcat(d.files, AllFilesIn(d.subdirs), (f: Path) => Selected(pattern, f));
  }

  lemma {:induction false} MatchingAllFilesIn(ds: seq<Dir>, pattern: string)
    requires AllAccessible(ds)
    ensures VisibleIn(ds, pattern) == MatchingFiles(AllFilesIn(ds), pattern)
    ensures !AnyFaulty(ds)
    decreases ds, 0
  {
    if ds != [] {
      MatchingAllFiles(ds[0], pattern);
      MatchingAllFilesIn(ds[1..], pattern);
      FilterConcat(AllFiles(ds[0]), AllFilesIn(ds[1..]), (f: Path) => Selected(pattern, f));
    }
  }

  /** In a fully accessible tree the walk returns exactly the files of the
      tree that the pattern selects, in depth-first order, each as often as
      the tree holds it. */
  lemma FullyAccessibleWalk(d: Dir, pattern: string)
    requires FullyAccessible(d)
    ensures Walk(d, pattern) == Ok(MatchingFiles(AllFiles(d), pattern))
    ensures forall f :: f in Walk(d, pattern).value <==> f in AllFiles(d) && Selected(pattern, f)
    ensures IsSubsequence(Walk(d, pattern).value, AllFiles(d))
    ensures Distinct(AllFiles(d)) ==> Distinct(Walk(d, pattern).value)
  {
    MatchingAllFiles(d, pattern);
    WalkSpec(d, pattern);
    var keep := (f: Path) => Selected(pattern, f);
    forall f { FilterMembership(AllFiles(d), keep, f); }
    FilterIsSubsequence(AllFiles(d), keep);
    if Distinct(AllFiles(d)) {
      FilterKeepsDistinct(AllFiles(d), keep);
    }
  }

  // ---------------------------------------------------------------------
  // The imperative walker.

  /** `SafeEnumerateFiles(root, searchPattern)`: builds `files` in place with
      `AddRange` while looping over the subdirectories. */
  method SafeEnumerateFiles(root: Dir, pattern: string) returns (r: Result<seq<Path>, Fault>)
    ensures r == Walk(root, pattern)
    decreases root
  {
    var files: seq<Path> := [];
    var listing := EnumerateFiles(root, pattern);
    if listing.Ok? {
      files := files + listing.value;
      assert files == listing.value;
    } else if listing.error.OtherError? {
      return listing;
    }
    match root.subdirListing {
      case Denied(_) => return Ok(files);
      case Faulted(m) => return Err(OtherError(m));
      case Listable =>
    }
    assert root.subdirs[0..] == root.subdirs;
    var i := 0;
    while i < |root.subdirs|
      invariant 0 <= i <= |root.subdirs|
      invariant WalkChildren(root.subdirs[i..], pattern, files) == Walk(root, pattern)
    {
      WalkChildrenAt(root.subdirs, i, pattern, files);
      var sub := SafeEnumerateFiles(root.subdirs[i], pattern);
      match sub {
        case Ok(found) => files := files + found;
        case Err(AccessDenied(_)) =>
        case Err(OtherError(m)) => return Err(OtherError(m));
      }
      i := i + 1;
    }
    assert root.subdirs[i..] == [];
    return Ok(files);
  }
}
