/** The sidebar (Sidebar.jsx): the search box that filters the public and the private
    document lists, and the row highlighting of the active document. The avatar initials
    it shows are `Text.Initials`. */
module Sidebar {
  import opened Catalog
  import Seqs
  import Text

  /** `query.trim().toLowerCase()`: the needle the titles are searched for. */
  function Normalize(query: string): (q: string)
    ensures |q| == |Text.Trim(query)|
    ensures q == [] <==> forall i :: 0 <= i < |query| ==> Text.IsSpace(query[i])
  {
    Text.Lower(Text.Trim(query))
  }

  /** `d.title.toLowerCase().includes(q)` */
  predicate Matches(d: Doc, q: string) {
    Text.Includes(Text.Lower(d.title), q)
  }

  function Keep(q: string): Doc -> bool {
    d => Matches(d, q)
  }

  /** One of the two memoised lists: everything when the normalised query is empty,
      otherwise the documents whose lower-cased title contains it, in their own order. */
  function FilterDocs(docs: seq<Doc>, query: string): (r: seq<Doc>)
    ensures Text.Trim(query) == [] ==> r == docs
    ensures Seqs.IsSubsequence(r, docs)
    ensures Text.Trim(query) != [] ==>
              forall d :: d in r <==> d in docs && Matches(d, Normalize(query))
    ensures Text.Trim(query) != [] ==>
              forall d :: multiset(r)[d] == if Matches(d, Normalize(query)) then multiset(docs)[d] else 0
  {
    var q := Normalize(query);
    if q == [] then
      Seqs.SubsequenceReflexive(docs);
      docs
    else
      KeepFacts(docs, q);
      Seqs.Filter(Keep(q), docs)
  }

  /** The filter facts of `Seqs`, stated with `Matches` for the sidebar's predicate. */
  lemma KeepFacts(docs: seq<Doc>, q: string)
    ensures Seqs.IsSubsequence(Seqs.Filter(Keep(q), docs), docs)
    ensures forall d :: d in Seqs.Filter(Keep(q), docs) <==> d in docs && Matches(d, q)
    ensures forall d :: multiset(Seqs.Filter(Keep(q), docs))[d] == if Matches(d, q) then multiset(docs)[d] else 0
  {
    Seqs.FilterIsSubsequence(Keep(q), docs);
    Seqs.FilterMembership(Keep(q), docs);
    Seqs.FilterCounts(Keep(q), docs);
  }

  /** With an empty needle every title matches (`"abc".includes("")`), so an empty query
      and a filter by the empty needle agree. */
  lemma EmptyNeedleMatchesAll(d: Doc)
    ensures Matches(d, [])
  {
    assert Text.OccursAt(Text.Lower(d.title), [], 0);
  }

  /** A query of nothing but white space shows both lists in full. */
  lemma WhitespaceQuery(docs: seq<Doc>, query: string)
    requires forall i :: 0 <= i < |query| ==> Text.IsSpace(query[i])
    ensures FilterDocs(docs, query) == docs
  {
  }

  /** Searching is case-insensitive: lower-casing the query first changes nothing. */
  lemma QueryCaseInsensitive(docs: seq<Doc>, query: string)
    ensures FilterDocs(docs, Text.Lower(query)) == FilterDocs(docs, query)
  {
    Text.TrimLowerIgnoresCase(query);
    assert Normalize(Text.Lower(query)) == Normalize(query);
  }

  /** Titles that differ only in the case of letters match the same queries, so the
      search does not care how a title is capitalised. */
  lemma TitleCaseIgnored(a: Doc, b: Doc, query: string)
    requires Text.SameUpToCase(a.title, b.title)
    ensures Matches(a, Normalize(query)) == Matches(b, Normalize(query))
    ensures a in FilterDocs([a], query) <==> b in FilterDocs([b], query)
  {
    Text.LowerIgnoresCase(a.title, b.title);
  }

  /** Filtering a filtered list again by the same query changes nothing. */
  lemma FilterDocsIdempotent(docs: seq<Doc>, query: string)
    ensures FilterDocs(FilterDocs(docs, query), query) == FilterDocs(docs, query)
  {
    var q := Normalize(query);
    if q != [] {
      Seqs.FilterIdempotent(Keep(q), docs);
    }
  }

  /** Filtering the two sections separately is filtering the whole catalogue and cutting
      it where the public documents end. */
  lemma FilterDocsConcat(publicDocs: seq<Doc>, privateDocs: seq<Doc>, query: string)
    ensures FilterDocs(publicDocs + privateDocs, query) ==
              FilterDocs(publicDocs, query) + FilterDocs(privateDocs, query)
  {
    var q := Normalize(query);
    if q != [] {
      Seqs.FilterConcat(Keep(q), publicDocs, privateDocs);
    }
  }

  /** Filtering keeps the document ids unique, so it never shows a document twice. */
  lemma {:induction false} FilterKeepsUnique(p: Doc -> bool, docs: seq<Doc>)
    requires UniqueIds(docs)
    ensures UniqueIds(Seqs.Filter(p, docs))
  {
    if docs != [] {
      var rest := docs[1..];
      assert UniqueIds(rest) by {
        forall i, j | 0 <= i < j < |rest|
          ensures rest[i].id != rest[j].id
        {
          assert rest[i] == docs[i + 1] && rest[j] == docs[j + 1];
        }
      }
      FilterKeepsUnique(p, rest);
      Seqs.FilterMembership(p, rest);
      var tail := Seqs.Filter(p, rest);
      if p(docs[0]) {
        var r := [docs[0]] + tail;
        assert Seqs.Filter(p, docs) == r;
        forall i, j | 0 <= i < j < |r|
          ensures r[i].id != r[j].id
        {
          if i == 0 {
            assert r[j] == tail[j - 1] && r[j] in rest;
            var k :| 0 <= k < |rest| && rest[k] == r[j];
            assert docs[k + 1] == r[j];
          } else {
            assert r[i] == tail[i - 1] && r[j] == tail[j - 1];
          }
        }
      } else {
        assert Seqs.Filter(p, docs) == tail;
      }
    }
  }

  /** `active={doc.id === activeDocId}` */
  predicate Highlighted(d: Doc, activeDocId: string) {
    d.id == activeDocId
  }

  /** In a catalogue whose ids are unique at most one row of the filtered sidebar, over
      both sections, is highlighted. */
  lemma AtMostOneHighlighted(publicDocs: seq<Doc>, privateDocs: seq<Doc>, query: string, activeDocId: string)
    requires UniqueIds(publicDocs + privateDocs)
    ensures forall i, j ::
              0 <= i < j < |FilterDocs(publicDocs, query) + FilterDocs(privateDocs, query)| ==>
              !(Highlighted((FilterDocs(publicDocs, query) + FilterDocs(privateDocs, query))[i], activeDocId) &&
                Highlighted((FilterDocs(publicDocs, query) + FilterDocs(privateDocs, query))[j], activeDocId))
  {
    var all := publicDocs + privateDocs;
    FilterDocsConcat(publicDocs, privateDocs, query);
    var q := Normalize(query);
    if q != [] {
      FilterKeepsUnique(Keep(q), all);
    }
  }
}
