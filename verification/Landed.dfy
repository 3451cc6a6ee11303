/** Is a branch's work on main: scripts/check_cadence.py's landed and landed_since_edited, with the patch-id shortcut,
    and scripts/forge.py's nothing_left. A tree is a map from path to content, and a diff is what it shows of each
    path; git's answers come in as these. */
module Landed {
  import opened Common

  type Path = string
  type Content = string
  type Tree = map<Path, Content>

  /** A diff: what is shown of each path that changed. */
  type Diff = map<Path, string>

  /** What git shows of one path's change, and the id it gives a patch. */
  datatype Git = Git(hunks: (Option<Content>, Option<Content>) -> string, id: Diff -> string) {
    /** An id tells what files its patch is over. */
    ghost predicate Tells() {
      forall d, e | id(d) == id(e) :: d.Keys == e.Keys
    }
  }

  function At(t: Tree, p: Path): Option<Content> {
    if p in t then Some(t[p]) else None
  }

  function Differ(a: Tree, b: Tree): set<Path> {
    set p | p in a.Keys + b.Keys && At(a, p) != At(b, p)
  }

  lemma DifferIff(a: Tree, b: Tree, p: Path)
    ensures p in Differ(a, b) <==> At(a, p) != At(b, p)
  {
  }

  function DiffOver(g: Git, a: Tree, b: Tree, names: set<Path>): (d: Diff)
    ensures d.Keys == names * Differ(a, b)
  {
    map p | p in names * Differ(a, b) :: g.hunks(At(a, p), At(b, p))
  }

  function PatchId(g: Git, d: Diff): Option<string> {
    if d == map[] then None else Some(g.id(d))
  }

  // ----- nothing left -----

  /** Every file the head changed is already so on the base. */
  function NothingLeft(mergeBase: Tree, base: Tree, head: Tree): bool {
    Differ(mergeBase, head) !! Differ(base, head)
  }

  datatype Merged = Clean(content: Option<Content>) | Conflict

  /** A three-way merge of one file. */
  function MergeFile(was: Option<Content>, ours: Option<Content>, theirs: Option<Content>): Merged {
    if ours == theirs then Clean(ours)
    else if was == theirs then Clean(ours)
    else if was == ours then Clean(theirs)
    else Conflict
  }

  /** Merging the head would conflict nowhere and change nothing. */
  ghost predicate MergeIsEmpty(mergeBase: Tree, base: Tree, head: Tree) {
    forall p: Path :: MergeFile(At(mergeBase, p), At(base, p), At(head, p)) == Clean(At(base, p))
  }

  lemma NothingLeftIff(mergeBase: Tree, base: Tree, head: Tree)
    ensures NothingLeft(mergeBase, base, head) <==> MergeIsEmpty(mergeBase, base, head)
  {
    forall p: Path
      ensures MergeFile(At(mergeBase, p), At(base, p), At(head, p)) == Clean(At(base, p)) <==>
                !(p in Differ(mergeBase, head) && p in Differ(base, head))
    {
      DifferIff(mergeBase, head, p);
      DifferIff(base, head, p);
    }
  }

  /** What any three-way merge of a file does, git's own line by line among them: where one side did not change it, or
      both made it the same, the other side's, or that, is the result. */
  ghost predicate IsMerge(merge: (Option<Content>, Option<Content>, Option<Content>) -> Merged) {
    && (forall was, both :: merge(was, both, both) == Clean(both))
    && forall was, ours :: merge(was, ours, was) == Clean(ours)
  }

  /** Where nothing is left, merging changes nothing, however files are merged. */
  lemma NothingLeftMergesEmpty(merge: (Option<Content>, Option<Content>, Option<Content>) -> Merged, mergeBase: Tree,
                               base: Tree, head: Tree)
    requires IsMerge(merge) && NothingLeft(mergeBase, base, head)
    ensures forall p: Path :: merge(At(mergeBase, p), At(base, p), At(head, p)) == Clean(At(base, p))
  {
    forall p: Path ensures merge(At(mergeBase, p), At(base, p), At(head, p)) == Clean(At(base, p)) {
      DifferIff(mergeBase, head, p);
      DifferIff(base, head, p);
    }
  }

  // ----- landed -----

  /** The branch's own files; a renamed one's old path is not listed, so these are some of those that differ. */
  predicate AreNames(names: set<Path>, base: Tree, branch: Tree) {
    names <= Differ(base, branch)
  }

  predicate SameOver(a: Tree, b: Tree, names: set<Path>) {
    forall p | p in names :: At(a, p) == At(b, p)
  }

  /** The branch's content is on main now. */
  predicate IsLanded(main: Tree, branch: Tree, names: set<Path>) {
    names != {} && SameOver(main, branch, names)
  }

  /** A commit on main's first-parent line, against its parent. */
  datatype Commit = Commit(merge: bool, parent: Tree, tree: Tree)

  function CommitDiff(g: Git, c: Commit, names: set<Path>): Diff {
    DiffOver(g, c.parent, c.tree, names)
  }

  /** What git gives as a commit's patch-id over some files: a merge has none. */
  function CommitId(g: Git, c: Commit, names: set<Path>): Option<string> {
    if c.merge then None else PatchId(g, CommitDiff(g, c, names))
  }

  /** The simple form: some commit since the merge-base that touched the files has the patch's id. */
  predicate OnMain(g: Git, commits: seq<Commit>, names: set<Path>, mine: string) {
    exists i :: 0 <= i < |commits| && CommitId(g, commits[i], names) == Some(mine)
  }

  /** A commit that touches every one of the files. */
  predicate IsCandidate(g: Git, c: Commit, names: set<Path>) {
    !c.merge && CommitDiff(g, c, names).Keys == names
  }

  function IdsUpTo(g: Git, commits: seq<Commit>, names: set<Path>, n: nat): set<string>
    requires n <= |commits|
  {
    set i | 0 <= i < n && CommitId(g, commits[i], names).Some? :: CommitId(g, commits[i], names).value
  }

  /** The ids of one batch of commits, as one log and one patch-id give them. */
  function BatchIds(g: Git, batch: seq<Commit>, names: set<Path>): set<string> {
    IdsUpTo(g, batch, names, |batch|)
  }

  const BATCH: nat := 200

  /** The ids of the commits that could carry the branch's patch, in batches. */
  method MainPatchIds(g: Git, commits: seq<Commit>, names: set<Path>) returns (ids: set<string>)
    ensures forall x :: x in ids <==> exists i :: 0 <= i < |commits| && IsCandidate(g, commits[i], names)
                                                  && CommitId(g, commits[i], names) == Some(x)
  {
    var cands, n := [], 0;
    while n < |commits|
      invariant n <= |commits|
      invariant forall c :: c in cands <==> exists i :: 0 <= i < n && commits[i] == c && IsCandidate(g, c, names)
    {
      if IsCandidate(g, commits[n], names) {
        cands := cands + [commits[n]];
      }
      n := n + 1;
    }
    ids := {};
    var i := 0;
    while i < |cands|
      invariant i <= |cands| && ids == IdsUpTo(g, cands, names, i)
    {
      var j := if i + BATCH <= |cands| then i + BATCH else |cands|;
      BatchAdds(g, cands, names, i, j);
      ids := ids + BatchIds(g, cands[i..j], names);
      i := j;
    }
    assert forall x :: x in ids <==> exists k :: 0 <= k < |cands| && CommitId(g, cands[k], names) == Some(x);
    forall x
      ensures x in ids <==> exists i :: 0 <= i < |commits| && IsCandidate(g, commits[i], names)
                                        && CommitId(g, commits[i], names) == Some(x)
    {
      if x in ids {
        var k :| 0 <= k < |cands| && CommitId(g, cands[k], names) == Some(x);
        assert cands[k] in cands;
      }
    }
  }

  lemma BatchAdds(g: Git, cands: seq<Commit>, names: set<Path>, i: nat, j: nat)
    requires i <= j <= |cands|
    ensures IdsUpTo(g, cands, names, i) + BatchIds(g, cands[i..j], names) == IdsUpTo(g, cands, names, j)
  {
    var batch := cands[i..j];
    forall x | x in IdsUpTo(g, cands, names, j)
      ensures x in IdsUpTo(g, cands, names, i) || x in BatchIds(g, batch, names)
    {
      var k :| 0 <= k < j && CommitId(g, cands[k], names) == Some(x);
      assert k >= i ==> batch[k-i] == cands[k];
    }
    forall x | x in BatchIds(g, batch, names) ensures x in IdsUpTo(g, cands, names, j) {
      var k :| 0 <= k < |batch| && CommitId(g, batch[k], names) == Some(x);
      assert cands[i+k] == batch[k];
    }
  }

  /** A commit with the branch's own patch touches every file of the branch, so no other need be asked. */
  lemma OnlyCandidates(g: Git, c: Commit, names: set<Path>, base: Tree, branch: Tree)
    requires g.Tells() && AreNames(names, base, branch) && names != {}
    requires CommitId(g, c, names) == PatchId(g, DiffOver(g, base, branch, names))
    ensures IsCandidate(g, c, names)
  {
    var mine := DiffOver(g, base, branch, names);
    assert mine.Keys == names && mine != map[];
    assert g.id(CommitDiff(g, c, names)) == g.id(mine);
  }

  datatype Verdict = No | Yes | Reverted

  /** A squash that is known: whether it is on main, and its tree. */
  datatype Squash = Squash(onMain: bool, tree: Tree)

  /** Landed and since edited, by the simple form. */
  function SinceEdited(g: Git, base: Tree, main: Tree, branch: Tree, names: set<Path>, squash: Option<Squash>,
                       commits: seq<Commit>): Verdict {
    if names == {} then No
    else if squash.Some? && !(squash.value.onMain && SameOver(squash.value.tree, branch, names)) then No
    else if squash.None? && !OnMain(g, commits, names, g.id(DiffOver(g, base, branch, names))) then No
    else if SameOver(base, main, names) then Reverted
    else Yes
  }

  /** With a shortcut where git can list the commits' files, and commit by commit where it cannot: the answer is the
      simple form's either way. */
  method FindOnMain(g: Git, base: Tree, branch: Tree, names: set<Path>, commits: seq<Commit>, listed: bool)
    returns (found: bool)
    requires g.Tells() && AreNames(names, base, branch) && names != {}
    ensures found == OnMain(g, commits, names, g.id(DiffOver(g, base, branch, names)))
  {
    var mine := g.id(DiffOver(g, base, branch, names));
    if listed {
      var ids := MainPatchIds(g, commits, names);
      MineIsACandidate(g, base, branch, names, commits);
      return mine in ids;
    }
    found := false;
    var n := 0;
    while n < |commits| && !found
      invariant n <= |commits|
      invariant found <==> exists i :: 0 <= i < n && CommitId(g, commits[i], names) == Some(mine)
    {
      found := CommitId(g, commits[n], names) == Some(mine);
      n := n + 1;
    }
  }

  lemma MineIsACandidate(g: Git, base: Tree, branch: Tree, names: set<Path>, commits: seq<Commit>)
    requires g.Tells() && AreNames(names, base, branch) && names != {}
    ensures forall i | 0 <= i < |commits|
                       && CommitId(g, commits[i], names) == Some(g.id(DiffOver(g, base, branch, names))) ::
              IsCandidate(g, commits[i], names)
  {
    var diff := DiffOver(g, base, branch, names);
    assert diff.Keys == names && diff != map[];
    forall i | 0 <= i < |commits| && CommitId(g, commits[i], names) == Some(g.id(diff))
      ensures IsCandidate(g, commits[i], names)
    {
      OnlyCandidates(g, commits[i], names, base, branch);
    }
  }

  method LandedSinceEdited(g: Git, base: Tree, main: Tree, branch: Tree, names: set<Path>, squash: Option<Squash>,
                           commits: seq<Commit>, listed: bool)
    returns (v: Verdict)
    requires g.Tells() && AreNames(names, base, branch)
    ensures v == SinceEdited(g, base, main, branch, names, squash, commits)
  {
    if names == {} {
      return No;
    }
    if squash.Some? {
      if !(squash.value.onMain && SameOver(squash.value.tree, branch, names)) {
        return No;
      }
    } else {
      var found := FindOnMain(g, base, branch, names, commits, listed);
      if !found {
        return No;
      }
    }
    return if SameOver(base, main, names) then Reverted else Yes;
  }

  /** The commit's own change over the files, which is some change, is the patch of that id. */
  ghost predicate Carries(g: Git, c: Commit, names: set<Path>, patch: string) {
    && !c.merge
    && (exists p :: p in names && At(c.parent, p) != At(c.tree, p))
    && patch == g.id(DiffOver(g, c.parent, c.tree, names))
  }

  lemma CarriesIff(g: Git, c: Commit, names: set<Path>, patch: string)
    ensures Carries(g, c, names, patch) <==> CommitId(g, c, names) == Some(patch)
  {
    var diff := CommitDiff(g, c, names);
    if p :| p in names && At(c.parent, p) != At(c.tree, p) {
      DifferIff(c.parent, c.tree, p);
      assert p in diff.Keys;
    }
    if diff != map[] {
      var p :| p in diff.Keys;
      DifferIff(c.parent, c.tree, p);
    }
  }

  /** It landed: its squash is on main and has its files, or with none known a commit of main carries its patch. */
  ghost predicate DidLand(g: Git, base: Tree, branch: Tree, names: set<Path>, squash: Option<Squash>,
                          commits: seq<Commit>) {
    match squash
    case Some(q) => q.onMain && forall p | p in names :: At(q.tree, p) == At(branch, p)
    case None => exists i :: 0 <= i < |commits|
                             && Carries(g, commits[i], names, g.id(DiffOver(g, base, branch, names)))
  }

  /** The verdict is yes exactly when the branch has files, landed, and main differs from the merge-base over some of
      them; and reverted when main differs over none. */
  lemma VerdictIff(g: Git, base: Tree, main: Tree, branch: Tree, names: set<Path>, squash: Option<Squash>,
                   commits: seq<Commit>)
    ensures var v := SinceEdited(g, base, main, branch, names, squash, commits);
            var landed := names != {} && DidLand(g, base, branch, names, squash, commits);
            && (v == Yes <==> landed && exists p :: p in names && At(main, p) != At(base, p))
            && (v == Reverted <==> landed && forall p | p in names :: At(main, p) == At(base, p))
  {
    var mine := g.id(DiffOver(g, base, branch, names));
    forall i | 0 <= i < |commits|
      ensures Carries(g, commits[i], names, mine) <==> CommitId(g, commits[i], names) == Some(mine)
    {
      CarriesIff(g, commits[i], names, mine);
    }
  }

  /** What is on main now has not been undone there. */
  lemma LandedIsNeverReverted(g: Git, base: Tree, main: Tree, branch: Tree, names: set<Path>, squash: Option<Squash>,
                              commits: seq<Commit>)
    requires AreNames(names, base, branch) && IsLanded(main, branch, names)
    ensures SinceEdited(g, base, main, branch, names, squash, commits) != Reverted
  {
    var p :| p in names;
    DifferIff(base, branch, p);
    assert At(main, p) == At(branch, p) != At(base, p);
  }
}
