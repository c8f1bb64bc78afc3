/** `main`: collect the records, keep the hundred largest repositories, and render
    them as the HTML table. */
module Report {
  import opened Calendar
  import opened Timestamps
  import opened Projects
  import opened Ranking
  import opened HtmlTable

  /** The records `main` ranks: those of every page up to the first short one. */
  function Fetched(pages: seq<seq<Project>>): seq<ProjectMetadata>
  {
    Records(Listing(pages, FirstShortPage(pages, 1)))
  }

  /** Every record of a run of projects comes from a non-forked project of the run. */
  lemma {:induction false} RecordSource(ps: seq<Project>, r: ProjectMetadata)
    requires r in multiset(Records(ps))
    ensures exists p :: p in ps && !p.forked && r == RecordOf(p)
  {
    var kept := NonForked(ps);
    var k :| 0 <= k < |Records(ps)| && Records(ps)[k] == r;
    var p := kept[k];
    assert p in multiset(kept);
    NonForkedCounts(ps, p);
    assert p in multiset(ps);
  }

  /** When every non-forked project carries a timestamp that converts, so does every
      record of the top list. */
  lemma {:induction false} TopRenderable(ps: seq<Project>)
    requires forall p :: p in ps && !p.forked ==> RenderableStamp(p.lastActivityAt)
    ensures Renderable(TopBySize(Records(ps)))
  {
    var top := TopBySize(Records(ps));
    forall i | 0 <= i < |top|
      ensures RenderableStamp(top[i].lastActivityAt)
    {
      assert top[i] in multiset(top);
      RecordSource(ps, top[i]);
    }
  }

  /** `main` without the logging and the file write: the page listing in,
      the table of the hundred largest non-forked repositories out. */
  method Report(pages: seq<seq<Project>>, today: Date, sizeText: nat -> string) returns (html: string)
    requires ValidToday(today)
    requires Renderable(TopBySize(Fetched(pages)))
    ensures html == Table(TopBySize(Fetched(pages)), today, sizeText)
  {
    var allProjectMetadata, requested := CollectProjectMetadata(pages);
    var top100ProjectMetadata := TopBySize(allProjectMetadata);
    html := RenderTable(top100ProjectMetadata, today, sizeText);
  }
}
