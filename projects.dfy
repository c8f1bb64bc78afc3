/** `ProjectMetadata` and `get_all_project_metadata`: paging through the project
    listing thirty at a time, skipping forks, and building one record per
    remaining project from the listing fields and three per-project calls. */
module Projects {

  /** What one branch, tag or contributor listing call did: returned a list of
      `count` items, or raised a `GitlabError` (the project has no repository). */
  datatype CallOutcome = Listed(count: nat) | Raised

  /** One project as the listing returns it, with the outcomes its three
      per-project calls would have. */
  datatype Project = Project(
    pathWithNamespace: string,
    httpUrlToRepo: string,
    forked: bool,            // carries a `forked_from_project` attribute
    commitCount: nat,        // statistics['commit_count']
    repositorySize: nat,     // statistics['repository_size'], in bytes
    forksCount: nat,
    lastActivityAt: string,
    branches: CallOutcome,
    tags: CallOutcome,
    contributors: CallOutcome)

  /** The record kept per non-forked project. */
  datatype ProjectMetadata = ProjectMetadata(
    pathWithNamespace: string,
    httpUrlToRepo: string,
    commitCount: nat,
    branchCount: nat,
    tagCount: nat,
    contributorsCount: nat,
    forksCount: nat,
    repositorySize: nat,
    lastActivityAt: string)

  /** The page size the listing is requested with. */
  const PerPage := 30

  /** The field values `ProjectMetadata()` starts from. */
  function EmptyMetadata(): ProjectMetadata
  {
    ProjectMetadata("", "", 0, 0, 0, 0, 0, 0, "")
  }

  // ---------------------------------------------------------------------------
  // One record
  // ---------------------------------------------------------------------------

  /** The three calls of the `try` block, in the order they are made. */
  function Calls(p: Project): seq<CallOutcome>
  {
    [p.branches, p.tags, p.contributors]
  }

  /** How many of the calls returned before the first one raised (3 if none raised). */
  function Completed(calls: seq<CallOutcome>): (k: nat)
    ensures k <= |calls|
    ensures forall i :: 0 <= i < k ==> calls[i].Listed?
    ensures k < |calls| ==> calls[k].Raised?
  {
    if calls == [] || calls[0].Raised? then 0 else 1 + Completed(calls[1..])
  }

  /** The count the record keeps for call `i`: its length if it returned before
      any call raised, and the initial 0 otherwise. */
  function CountKept(p: Project, i: nat): nat
    requires i < 3
  {
    if i < Completed(Calls(p)) then Calls(p)[i].count else 0
  }

  /** The record of a non-forked project: listing fields copied, counts as kept. */
  function RecordOf(p: Project): ProjectMetadata
  {
    ProjectMetadata(p.pathWithNamespace, p.httpUrlToRepo, p.commitCount,
                    CountKept(p, 0), CountKept(p, 1), CountKept(p, 2),
                    p.forksCount, p.repositorySize, p.lastActivityAt)
  }

  /** The body of the `if not hasattr(project, 'forked_from_project')` branch: start
      from the defaults, copy the listing fields, then assign the three counts one
      call at a time until a call raises. */
  method BuildMetadata(p: Project) returns (m: ProjectMetadata)
    ensures m == RecordOf(p)
    ensures m.pathWithNamespace == p.pathWithNamespace && m.httpUrlToRepo == p.httpUrlToRepo
    ensures m.commitCount == p.commitCount && m.repositorySize == p.repositorySize
    ensures m.forksCount == p.forksCount && m.lastActivityAt == p.lastActivityAt
    ensures p.branches.Raised? ==> m.branchCount == 0 && m.tagCount == 0 && m.contributorsCount == 0
    ensures p.branches.Listed? && p.tags.Raised? ==>
              m.branchCount == p.branches.count && m.tagCount == 0 && m.contributorsCount == 0
    ensures p.branches.Listed? && p.tags.Listed? && p.contributors.Raised? ==>
              m.branchCount == p.branches.count && m.tagCount == p.tags.count && m.contributorsCount == 0
    ensures p.branches.Listed? && p.tags.Listed? && p.contributors.Listed? ==>
              m.branchCount == p.branches.count && m.tagCount == p.tags.count
              && m.contributorsCount == p.contributors.count
  {
    m := EmptyMetadata();
    m := m.(pathWithNamespace := p.pathWithNamespace);
    m := m.(httpUrlToRepo := p.httpUrlToRepo);
    m := m.(commitCount := p.commitCount);
    m := m.(repositorySize := p.repositorySize);
    m := m.(forksCount := p.forksCount);
    m := m.(lastActivityAt := p.lastActivityAt);
    // try: the first call that raises ends the block; the counts not yet assigned stay 0
    if p.branches.Listed? {
      m := m.(branchCount := p.branches.count);
      if p.tags.Listed? {
        m := m.(tagCount := p.tags.count);
        if p.contributors.Listed? {
          m := m.(contributorsCount := p.contributors.count);
        }
      }
    }
  }

  /** A project with no repository still yields a record, with all three counts 0. */
  lemma NoRepositoryRecord(p: Project)
    requires p.branches.Raised?
    ensures RecordOf(p).branchCount == 0 && RecordOf(p).tagCount == 0 && RecordOf(p).contributorsCount == 0
    ensures RecordOf(p).commitCount == p.commitCount && RecordOf(p).repositorySize == p.repositorySize
  {
  }

  // ---------------------------------------------------------------------------
  // The listing and the records it yields
  // ---------------------------------------------------------------------------

  /** The projects of page `n` (1-based); a page past the end of the listing is empty. */
  function Page(pages: seq<seq<Project>>, n: nat): seq<Project>
    requires n >= 1
  {
    if n <= |pages| then pages[n - 1] else []
  }

  /** Pages 1..k, one after the other. */
  function Listing(pages: seq<seq<Project>>, k: nat): seq<Project>
    decreases k
  {
    if k == 0 then [] else Listing(pages, k - 1) + Page(pages, k)
  }

  /** The projects that are not forks, in listing order. */
  function NonForked(ps: seq<Project>): (r: seq<Project>)
    ensures |r| <= |ps|
    ensures forall i :: 0 <= i < |r| ==> !r[i].forked
  {
    if ps == [] then []
    else if ps[|ps| - 1].forked then NonForked(ps[..|ps| - 1])
    else NonForked(ps[..|ps| - 1]) + [ps[|ps| - 1]]
  }

  /** The records kept for a run of projects: one per non-forked project, in order. */
  function Records(ps: seq<Project>): (r: seq<ProjectMetadata>)
    ensures |r| == |NonForked(ps)|
  {
    var kept := NonForked(ps);
    seq(|kept|, i requires 0 <= i < |kept| => RecordOf(kept[i]))
  }

  lemma {:induction false} NonForkedAppend(xs: seq<Project>, ys: seq<Project>)
    ensures NonForked(xs + ys) == NonForked(xs) + NonForked(ys)
    decreases |ys|
  {
    if ys != [] {
      var ys' := ys[..|ys| - 1];
      assert (xs + ys)[..|xs + ys| - 1] == xs + ys';
      NonForkedAppend(xs, ys');
    } else {
      assert xs + ys == xs;
    }
  }

  lemma {:induction false} RecordsAppend(xs: seq<Project>, ys: seq<Project>)
    ensures Records(xs + ys) == Records(xs) + Records(ys)
  {
    NonForkedAppend(xs, ys);
  }

  lemma {:induction false} RecordsSnoc(xs: seq<Project>, p: Project)
    ensures Records(xs + [p]) == Records(xs) + (if p.forked then [] else [RecordOf(p)])
  {
    RecordsAppend(xs, [p]);
    assert [p][..0] == [];
  }

  /** Forks yield no record; every other project yields exactly as many records as
      it occurs in the listing. */
  lemma {:induction false} NonForkedCounts(ps: seq<Project>, p: Project)
    ensures multiset(NonForked(ps))[p] == if p.forked then 0 else multiset(ps)[p]
    decreases |ps|
  {
    if ps != [] {
      var front := ps[..|ps| - 1];
      NonForkedCounts(front, p);
      assert ps == front + [ps[|ps| - 1]];
    }
  }

  // ---------------------------------------------------------------------------
  // get_all_project_metadata
  // ---------------------------------------------------------------------------

  /** The first page, from page `from` on, that holds fewer than `PerPage` projects. */
  function FirstShortPage(pages: seq<seq<Project>>, from: nat): (n: nat)
    requires 1 <= from <= |pages| + 1
    ensures from <= n <= |pages| + 1 && |Page(pages, n)| < PerPage
    ensures forall i :: from <= i < n ==> |Page(pages, i)| >= PerPage
    decreases |pages| + 1 - from
  {
    if |Page(pages, from)| < PerPage then from else FirstShortPage(pages, from + 1)
  }

  /** `get_all_project_metadata` over an abstract listing: pages are requested as 1, 2, ...; each
      non-forked project of a page gets a record; the loop ends after the first
      page holding fewer than `PerPage` projects. `requested` lists the page
      numbers asked for, in order. */
  method CollectProjectMetadata(pages: seq<seq<Project>>) returns (all: seq<ProjectMetadata>, requested: seq<nat>)
    ensures |requested| >= 1
    ensures forall i :: 0 <= i < |requested| ==> requested[i] == i + 1
    ensures forall i :: 0 <= i < |requested| - 1 ==> |Page(pages, requested[i])| >= PerPage
    ensures |Page(pages, |requested|)| < PerPage
    ensures |requested| == FirstShortPage(pages, 1)
    ensures all == Records(Listing(pages, |requested|))
  {
    all := [];
    requested := [];
    var page := 1;
    ghost var last := FirstShortPage(pages, 1);
    while true
      invariant 1 <= page <= last
      invariant |requested| == page - 1
      invariant forall i :: 0 <= i < |requested| ==> requested[i] == i + 1
      invariant forall i :: 0 <= i < |requested| ==> |Page(pages, requested[i])| >= PerPage
      invariant all == Records(Listing(pages, page - 1))
      decreases |pages| + 1 - page
    {
      var projects := Page(pages, page);
      requested := requested + [page];
      ghost var before := Listing(pages, page - 1);
      assert before + projects[..0] == before;
      for j := 0 to |projects|
        invariant all == Records(before + projects[..j])
      {
        var project := projects[j];
        assert before + projects[..j + 1] == (before + projects[..j]) + [project];
        RecordsSnoc(before + projects[..j], project);
        if !project.forked {
          var metadata := BuildMetadata(project);
          all := all + [metadata];
        }
      }
      assert projects[..|projects|] == projects;
      if |projects| < PerPage {
        assert page == last;
        break;
      }
      page := page + 1;
    }
  }
}
