/** The FAQ page: a case-insensitive search over questions and answers that
    keeps the category grouping and drops categories left empty, and an
    accordion in which at most one answer is open. */
module Faq {
  import opened Common
  import opened Seqs
  import opened Text

  datatype Question = Question(question: string, answer: string)

  datatype Section = Section(category: string, questions: seq<Question>)

  /** The search term occurs in the question or in the answer, ignoring case. */
  predicate Matches(q: Question, term: string)
  {
    ContainsIgnoreCase(q.question, term) || ContainsIgnoreCase(q.answer, term)
  }

  /** A section with only its matching questions. */
  function Narrow(c: Section, term: string): (r: Section)
    ensures r.category == c.category
    ensures IsSubsequence(r.questions, c.questions)
    ensures forall j :: 0 <= j < |r.questions| ==> Matches(r.questions[j], term)
    ensures forall j :: 0 <= j < |c.questions| && Matches(c.questions[j], term) ==> c.questions[j] in r.questions
    ensures |r.questions| == CountWhere(c.questions, q => Matches(q, term))
  {
    FilterIsSubsequence(c.questions, q => Matches(q, term));
    FilterLength(c.questions, q => Matches(q, term));
    c.(questions := Filter(c.questions, q => Matches(q, term)))
  }

  predicate NonEmpty(c: Section)
  {
    |c.questions| > 0
  }

  /** `filteredFAQs`: every section narrowed to its matching questions, then
      the sections left without questions dropped. */
  function FilterFaqs(sections: seq<Section>, term: string): (r: seq<Section>)
    ensures forall k :: 0 <= k < |r| ==> r[k].questions != []
    ensures forall k, j :: 0 <= k < |r| && 0 <= j < |r[k].questions| ==> Matches(r[k].questions[j], term)
    ensures forall i, j :: 0 <= i < |sections| && 0 <= j < |sections[i].questions|
              && Matches(sections[i].questions[j], term)
              ==> exists k :: 0 <= k < |r| && r[k] == Narrow(sections[i], term)
    ensures IsSubsequence(r, seq(|sections|, i requires 0 <= i < |sections| => Narrow(sections[i], term)))
    ensures |r| == CountWhere(seq(|sections|, i requires 0 <= i < |sections| => Narrow(sections[i], term)), NonEmpty)
  {
    var narrowed := seq(|sections|, i requires 0 <= i < |sections| => Narrow(sections[i], term));
    var r := Filter(narrowed, NonEmpty);
    FilterIsSubsequence(narrowed, NonEmpty);
    FilterLength(narrowed, NonEmpty);
    forall i, j | 0 <= i < |sections| && 0 <= j < |sections[i].questions| && Matches(sections[i].questions[j], term)
      ensures exists k :: 0 <= k < |r| && r[k] == Narrow(sections[i], term)
    {
      assert sections[i].questions[j] in Narrow(sections[i], term).questions;
      assert narrowed[i] in r;
    }
    r
  }

  /** The sections that are not empty, unchanged. */
  function NonEmptySections(sections: seq<Section>): seq<Section>
  {
    Filter(sections, NonEmpty)
  }

  /** With an empty search box every question shows: the page lists every
      section that has questions, in order, in full. */
  lemma {:induction false} EmptyTermShowsAll(sections: seq<Section>)
    ensures FilterFaqs(sections, "") == NonEmptySections(sections)
  {
    var narrowed := seq(|sections|, i requires 0 <= i < |sections| => Narrow(sections[i], ""));
    forall i | 0 <= i < |sections| ensures narrowed[i] == sections[i] {
      forall q: Question ensures Matches(q, "") {
        ContainsEmpty(Lower(q.question));
      }
      FilterAll(sections[i].questions, q => Matches(q, ""));
    }
    assert narrowed == sections;
  }

  /** Searching the page it already shows with the same term changes nothing. */
  lemma {:induction false} FilterFaqsIdempotent(sections: seq<Section>, term: string)
    ensures FilterFaqs(FilterFaqs(sections, term), term) == FilterFaqs(sections, term)
  {
    var r := FilterFaqs(sections, term);
    var narrowed := seq(|r|, i requires 0 <= i < |r| => Narrow(r[i], term));
    forall i | 0 <= i < |r| ensures narrowed[i] == r[i] {
      FilterAll(r[i].questions, q => Matches(q, term));
    }
    assert narrowed == r;
    FilterAll(r, NonEmpty);
  }

  /** The search ignores the case of the term: a term and its lower-case
      form select the same questions. */
  lemma {:induction false} SearchIgnoresCase(sections: seq<Section>, term: string)
    ensures FilterFaqs(sections, Lower(term)) == FilterFaqs(sections, term)
  {
    LowerIdempotent(term);
    forall i | 0 <= i < |sections|
      ensures Narrow(sections[i], Lower(term)) == Narrow(sections[i], term)
    {
      FilterCongruent(sections[i].questions, q => Matches(q, Lower(term)), q => Matches(q, term));
    }
    var a := seq(|sections|, i requires 0 <= i < |sections| => Narrow(sections[i], Lower(term)));
    var b := seq(|sections|, i requires 0 <= i < |sections| => Narrow(sections[i], term));
    assert a == b;
  }

  /** `toggleFAQ`: clicking the open question closes it, clicking any other
      opens it and closes the one open before. */
  function Toggle(open: Option<int>, index: int): (r: Option<int>)
    ensures r == Some(index) <==> open != Some(index)
    ensures r.Some? ==> r.value == index
  {
    if open == Some(index) then None else Some(index)
  }

  /** Clicking the same question twice restores the accordion when that
      question or none was open, and otherwise leaves everything closed. */
  lemma ToggleTwice(open: Option<int>, index: int)
    ensures Toggle(Toggle(open, index), index) == if open == Some(index) then open else None
  {
  }

  /** The accordion key of question `f` of the `c`-th shown section. */
  function GlobalIndex(c: nat, f: nat): nat
  {
    c * 100 + f
  }

  /** While every section holds fewer than 100 questions, the key of a shown
      question names that one question: at most one answer is open. */
  lemma GlobalIndexInjective(c1: nat, f1: nat, c2: nat, f2: nat)
    requires f1 < 100 && f2 < 100
    ensures GlobalIndex(c1, f1) == GlobalIndex(c2, f2) <==> c1 == c2 && f1 == f2
  {
    if c1 < c2 {
      assert c1 * 100 + 100 <= c2 * 100;
    } else if c2 < c1 {
      assert c2 * 100 + 100 <= c1 * 100;
    }
  }
}
