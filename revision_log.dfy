/** The revision history of pages as a value: which revision is the latest, what content
    a page shows, and the numbering rule. */
module RevisionLog {

  import opened Common
  import opened Records

  /** The revision of `page` with the highest number, if the page has any. */
  function Latest(revs: seq<Revision>, page: nat): (k: Option<nat>)
    ensures k.Some? ==> k.value < |revs| && revs[k.value].page == page
    ensures k.Some? ==> forall j | 0 <= j < |revs| && revs[j].page == page :: revs[j].number <= revs[k.value].number
    ensures k.None? ==> forall j | 0 <= j < |revs| :: revs[j].page != page
  {
    if revs == [] then None
    else
      var front := Latest(revs[..|revs| - 1], page);
      var last := |revs| - 1;
      if revs[last].page != page then front
      else if front.Some? && revs[front.value].number >= revs[last].number then front
      else Some(last)
  }

  /** `calculate_content_from_revisions`: the full text held by the latest revision, or
      the empty string for a page without revisions. */
  function ContentOf(revs: seq<Revision>, page: nat): string
  {
    match Latest(revs, page)
    case Some(k) => revs[k].diff
    case None => ""
  }

  /** The highest revision number of `page`, 0 when it has none. */
  function Top(revs: seq<Revision>, page: nat): nat
  {
    match Latest(revs, page)
    case Some(k) => revs[k].number
    case None => 0
  }

  /** The number the next new revision of `page` gets: one past the highest, or 1. */
  function NextNumber(revs: seq<Revision>, page: nat): (n: nat)
    ensures n >= 1
    ensures forall j | 0 <= j < |revs| && revs[j].page == page :: revs[j].number < n
  {
    Top(revs, page) + 1
  }

  function Numbers(revs: seq<Revision>, page: nat): set<nat>
  {
    set j | 0 <= j < |revs| && revs[j].page == page :: revs[j].number
  }

  /** The revisions of `page` are numbered 1, 2, ..., without a gap. */
  ghost predicate Gapless(revs: seq<Revision>, page: nat)
  {
    forall n: nat :: n in Numbers(revs, page) <==> 1 <= n <= Top(revs, page)
  }

  /** No page has two revisions with the same number (the unique pair (page, number)). */
  predicate UniqueNumbers(revs: seq<Revision>)
  {
    forall i, j | 0 <= i < |revs| && 0 <= j < |revs| && i != j ::
      revs[i].page == revs[j].page ==> revs[i].number != revs[j].number
  }

  /** Appending a revision numbered one past the highest keeps the numbering gapless and
      makes the new revision the latest: the page now shows its content. */
  lemma AppendNext(revs: seq<Revision>, page: nat, r: Revision)
    requires r.page == page && r.number == NextNumber(revs, page)
    ensures Latest(revs + [r], page) == Some(|revs|)
    ensures ContentOf(revs + [r], page) == r.diff
    ensures Top(revs + [r], page) == Top(revs, page) + 1
    ensures Gapless(revs, page) ==> Gapless(revs + [r], page)
    ensures UniqueNumbers(revs) ==> UniqueNumbers(revs + [r])
    ensures forall q | q != page :: Latest(revs + [r], q) == Latest(revs, q)
  {
    var revs' := revs + [r];
    assert revs'[..|revs'| - 1] == revs;
    assert Numbers(revs', page) == Numbers(revs, page) + {r.number} by {
      forall n | n in Numbers(revs', page) ensures n in Numbers(revs, page) + {r.number} {
        var j :| 0 <= j < |revs'| && revs'[j].page == page && revs'[j].number == n;
        if j < |revs| {
          assert revs[j].number == n;
        }
      }
      forall n | n in Numbers(revs, page) ensures n in Numbers(revs', page) {
        var j :| 0 <= j < |revs| && revs[j].page == page && revs[j].number == n;
        assert revs'[j] == revs[j];
      }
      assert revs'[|revs|] == r;
    }
    forall q | q != page ensures Latest(revs', q) == Latest(revs, q) {
      assert revs'[|revs|].page != q;
    }
  }

  /** Overwriting the content of the latest revision in place keeps the numbering and
      makes the page show the new content. */
  lemma AmendLatest(revs: seq<Revision>, page: nat, k: nat, diff: string, at: int)
    requires Latest(revs, page) == Some(k)
    ensures Latest(revs[k := revs[k].(diff := diff, timestamp := at)], page) == Some(k)
    ensures ContentOf(revs[k := revs[k].(diff := diff, timestamp := at)], page) == diff
    ensures Numbers(revs[k := revs[k].(diff := diff, timestamp := at)], page) == Numbers(revs, page)
    ensures Top(revs[k := revs[k].(diff := diff, timestamp := at)], page) == Top(revs, page)
  {
    var revs' := revs[k := revs[k].(diff := diff, timestamp := at)];
    LatestDependsOnKeys(revs, revs', page);
    assert Numbers(revs', page) == Numbers(revs, page) by {
      forall n | n in Numbers(revs', page) ensures n in Numbers(revs, page) {
        var j :| 0 <= j < |revs'| && revs'[j].page == page && revs'[j].number == n;
        assert revs[j].page == page && revs[j].number == n;
      }
      forall n | n in Numbers(revs, page) ensures n in Numbers(revs', page) {
        var j :| 0 <= j < |revs| && revs[j].page == page && revs[j].number == n;
        assert revs'[j].page == page && revs'[j].number == n;
      }
    }
  }

  /** Which revision is latest depends only on the page and number columns. */
  lemma {:induction false} LatestDependsOnKeys(revs: seq<Revision>, revs': seq<Revision>, page: nat)
    requires |revs| == |revs'|
    requires forall j | 0 <= j < |revs| :: revs[j].page == revs'[j].page && revs[j].number == revs'[j].number
    ensures Latest(revs, page) == Latest(revs', page)
  {
    if revs != [] {
      LatestDependsOnKeys(revs[..|revs| - 1], revs'[..|revs'| - 1], page);
    }
  }
}
