/**
  `KnowledgeGraphRAG.generate_context`: rendering a list of triples as the
  text handed to the language model, either as sentences ("natural") or as
  one line per subject ("structured").
*/
module Context {
  import opened Wrappers
  import opened Ordering
  import opened Text
  import opened Triples

  // ---------------------------------------------------------------------------
  // Natural style

  /** `f"{triple.head} {triple.relation} {triple.tail}."` */
  function Sentence(t: Triple): string
  {
    t.head + " " + t.relation + " " + t.tail + "."
  }

  function Sentences(ts: seq<Triple>): seq<string>
  {
    seq(|ts|, i requires 0 <= i < |ts| => Sentence(ts[i]))
  }

  /** A join of non-empty parts ends with its last part, so it is empty only when there are no parts. */
  lemma {:induction false} JoinWithEndsWithLast(parts: seq<string>, sep: string)
    requires parts != []
    ensures var s, last := JoinWith(parts, sep), parts[|parts| - 1];
      |last| <= |s| && s[|s| - |last|..] == last
  {
    if |parts| > 1 {
      JoinWithEndsWithLast(parts[1..], sep);
      var rest := JoinWith(parts[1..], sep);
      var s := parts[0] + sep + rest;
      assert s[|s| - |rest|..] == rest;
    }
  }

  /**
    The "natural" context: the sentences of the triples in triple order,
    separated by single spaces. It is empty exactly for an empty list, and
    otherwise ends with the full stop of its last sentence.
  */
  function NaturalContext(triples: seq<Triple>): (text: string)
    ensures text == "" <==> triples == []
    ensures triples != [] ==> text[|text| - 1] == '.'
  {
    var sorted := Sort(triples, TripleLess);
    SortLength(triples, TripleLess);
    SentencesJoined(sorted);
    JoinWith(Sentences(sorted), " ")
  }

  lemma SortLength<T>(xs: seq<T>, lt: (T, T) -> bool)
    ensures |Sort(xs, lt)| == |xs|
  {
    assert |Sort(xs, lt)| == |multiset(Sort(xs, lt))|;
  }

  lemma SentencesJoined(ts: seq<Triple>)
    ensures var text := JoinWith(Sentences(ts), " ");
      && (text == "" <==> ts == [])
      && (ts != [] ==> text[|text| - 1] == '.')
  {
    if ts != [] {
      var parts := Sentences(ts);
      JoinWithEndsWithLast(parts, " ");
      var text, last := JoinWith(parts, " "), parts[|parts| - 1];
      assert text[|text| - 1] == text[|text| - |last|..][|last| - 1];
    }
  }

  /**
    The natural context lists the sentences of the input in the unique
    ascending arrangement of its triples: any arrangement without an
    inversion gives the same text.
  */
  lemma NaturalContextOfArrangement(triples: seq<Triple>, arranged: seq<Triple>)
    requires multiset(arranged) == multiset(triples) && NoInversion(arranged, TripleLess)
    ensures NaturalContext(triples) == JoinWith(Sentences(arranged), " ")
  {
    TripleLessIsStrictTotalOrder();
    SortNoInversion(triples, TripleLess);
    NoInversionUnique(Sort(triples, TripleLess), arranged, TripleLess);
  }

  /** Reordering the input list does not change the natural context. */
  lemma NaturalContextOrderFree(a: seq<Triple>, b: seq<Triple>)
    requires multiset(a) == multiset(b)
    ensures NaturalContext(a) == NaturalContext(b)
  {
    TripleLessIsStrictTotalOrder();
    SortPermutationInvariant(a, b, TripleLess);
  }

  // ---------------------------------------------------------------------------
  // Structured style

  /** The distinct subjects (heads) of a list of triples. */
  ghost function HeadsOf(ts: seq<Triple>): set<string>
  {
    set t | t in ts :: t.head
  }

  /** The `(relation, tail)` pairs of the triples of `ts` with head `subject`, in list order. */
  ghost function Group(ts: seq<Triple>, subject: string): seq<Edge>
  {
    if ts == [] then []
    else
      var last := ts[|ts| - 1];
      Group(ts[..|ts| - 1], subject) + if last.head == subject then [(last.relation, last.tail)] else []
  }

  /** `f"{rel} {obj}"` for every pair. */
  function PairTexts(pairs: seq<Edge>): seq<string>
  {
    seq(|pairs|, i requires 0 <= i < |pairs| => pairs[i].0 + " " + pairs[i].1)
  }

  /** `f"{subject} -> {predicate_str}"` with the pairs sorted and joined by `"; "`. */
  function Line(subject: string, pairs: seq<Edge>): string
  {
    subject + " -> " + JoinWith(PairTexts(Sort(pairs, PairLess)), "; ")
  }

  /** One line per distinct subject, subjects ascending, each grouping that subject's pairs. */
  ghost function StructuredLines(triples: seq<Triple>): seq<string>
  {
    var sorted := Sort(triples, TripleLess);
    var subjects := SubjectOrder(HeadsOf(triples));
    seq(|subjects|, k requires 0 <= k < |subjects| => Line(subjects[k], Group(sorted, subjects[k])))
  }

  /** The "structured" context: its lines joined by newlines. */
  ghost function Structured(triples: seq<Triple>): string
  {
    JoinWith(StructuredLines(triples), "\n")
  }

  lemma HeadsOfSort(triples: seq<Triple>)
    ensures HeadsOf(Sort(triples, TripleLess)) == HeadsOf(triples)
  {
    var sorted := Sort(triples, TripleLess);
    forall t ensures t in sorted <==> t in triples {
      assert t in sorted <==> t in multiset(sorted);
      assert t in triples <==> t in multiset(triples);
    }
  }

  /** Appending a triple extends the group of its own head only. */
  lemma GroupSnoc(ts: seq<Triple>, t: Triple, subject: string)
    ensures Group(ts + [t], subject)
         == Group(ts, subject) + if t.head == subject then [(t.relation, t.tail)] else []
  {
    assert (ts + [t])[..|ts|] == ts;
  }

  /** A pair is in a subject's group exactly when the list has that triple. */
  lemma {:induction false} GroupMembers(ts: seq<Triple>, subject: string, pair: Edge)
    ensures pair in Group(ts, subject) <==> Triple(subject, pair.0, pair.1) in ts
  {
    if ts != [] {
      var init := ts[..|ts| - 1];
      GroupMembers(init, subject, pair);
      assert ts == init + [ts[|ts| - 1]];
    }
  }

  /** The distinct subjects in ascending order, each once. */
  ghost function SubjectOrder(s: set<string>): (subjects: seq<string>)
    ensures Distinct(subjects) && Elems(subjects) == s
  {
    StrLessIsStrictTotalOrder();
    SortedSet(s, StrLess)
  }

  /** `sorted(subject_groups.keys())` */
  method SortedSubjects(s: set<string>) returns (subjects: seq<string>)
    ensures subjects == SubjectOrder(s)
  {
    StrLessIsStrictTotalOrder();
    subjects := SortedOf(s, StrLess);
  }

  /**
    The "structured" branch: group the `(relation, tail)` pairs of the sorted
    triples by head in a dictionary, then emit one line per subject in
    ascending order.
  */
  method StructuredContext(triples: seq<Triple>) returns (text: string)
    ensures text == Structured(triples)
  {
    var sorted := Sort(triples, TripleLess);
    var groups := GroupByHead(sorted);
    HeadsOfSort(triples);
    var subjects := SortedSubjects(groups.Keys);
    var parts := RenderLines(subjects, groups, sorted);
    assert subjects == SubjectOrder(HeadsOf(triples));
    assert parts == StructuredLines(triples);
    text := JoinWith(parts, "\n");
  }

  /** The `defaultdict(list)` loop: each head's `(relation, tail)` pairs, in list order. */
  method GroupByHead(sorted: seq<Triple>) returns (groups: map<string, seq<Edge>>)
    ensures groups.Keys == HeadsOf(sorted) && GroupsAgree(groups, sorted)
  {
    groups := map[];
    assert GroupedUpTo(groups, sorted, 0) by {
      assert sorted[..0] == [];
      assert HeadsOf([]) == {};
    }
    for i := 0 to |sorted|
      invariant GroupedUpTo(groups, sorted, i)
    {
      var t := sorted[i];
      var pairs := if t.head in groups then groups[t.head] else [];
      GroupStep(groups, sorted, i);
      groups := groups[t.head := pairs + [(t.relation, t.tail)]];
    }
    assert sorted[..|sorted|] == sorted;
  }

  /** `groups` holds the groups of the first `i` triples of `sorted`. */
  ghost predicate GroupedUpTo(groups: map<string, seq<Edge>>, sorted: seq<Triple>, i: nat)
    requires i <= |sorted|
  {
    groups.Keys == HeadsOf(sorted[..i]) && GroupsAgree(groups, sorted[..i])
  }

  ghost predicate GroupsAgree(groups: map<string, seq<Edge>>, ts: seq<Triple>)
  {
    forall h :: (if h in groups then groups[h] else []) == Group(ts, h)
  }

  lemma GroupStep(groups: map<string, seq<Edge>>, sorted: seq<Triple>, i: nat)
    requires i < |sorted| && GroupedUpTo(groups, sorted, i)
    ensures var t := sorted[i];
      var pairs := if t.head in groups then groups[t.head] else [];
      GroupedUpTo(groups[t.head := pairs + [(t.relation, t.tail)]], sorted, i + 1)
  {
    var t := sorted[i];
    assert sorted[..i + 1] == sorted[..i] + [t];
    HeadsSnoc(sorted[..i], t);
    GroupsSnoc(groups, sorted[..i], t);
  }

  lemma HeadsSnoc(ts: seq<Triple>, t: Triple)
    ensures HeadsOf(ts + [t]) == HeadsOf(ts) + {t.head}
  {
    assert forall u :: u in ts + [t] <==> u in ts || u == t;
  }

  lemma GroupsSnoc(groups: map<string, seq<Edge>>, ts: seq<Triple>, t: Triple)
    requires GroupsAgree(groups, ts)
    ensures var pairs := if t.head in groups then groups[t.head] else [];
      GroupsAgree(groups[t.head := pairs + [(t.relation, t.tail)]], ts + [t])
  {
    forall h ensures Group(ts + [t], h) == Group(ts, h) + if t.head == h then [(t.relation, t.tail)] else [] {
      GroupSnoc(ts, t, h);
    }
  }

  /** The loop over the sorted subjects: one `"subject -> rel obj; ..."` line each. */
  method RenderLines(subjects: seq<string>, groups: map<string, seq<Edge>>, ghost sorted: seq<Triple>)
    returns (parts: seq<string>)
    requires forall k :: 0 <= k < |subjects| ==> subjects[k] in groups
    requires GroupsAgree(groups, sorted)
    ensures |parts| == |subjects|
    ensures forall k :: 0 <= k < |subjects| ==> parts[k] == Line(subjects[k], Group(sorted, subjects[k]))
  {
    parts := [];
    for j := 0 to |subjects|
      invariant |parts| == j
      invariant forall k :: 0 <= k < j ==> parts[k] == Line(subjects[k], Group(sorted, subjects[k]))
    {
      var subject := subjects[j];
      var predicates := Sort(groups[subject], PairLess);
      var predicateStr := JoinWith(PairTexts(predicates), "; ");
      parts := parts + [subject + " -> " + predicateStr];
    }
  }

  /** An empty list renders as the empty string. */
  lemma StructuredEmpty()
    ensures Structured([]) == ""
  {
    assert HeadsOf([]) == {};
    var subjects := SubjectOrder(HeadsOf([]));
    DistinctCard(subjects);
  }

  /** Reordering the input list does not change the structured context. */
  lemma StructuredOrderFree(a: seq<Triple>, b: seq<Triple>)
    requires multiset(a) == multiset(b)
    ensures Structured(a) == Structured(b)
  {
    TripleLessIsStrictTotalOrder();
    SortPermutationInvariant(a, b, TripleLess);
    HeadsOfSort(a);
    HeadsOfSort(b);
  }

  /**
    The structured context has exactly one line per distinct subject, the
    line of the `k`-th smallest subject starts with that subject and lists
    exactly the `(relation, tail)` pairs of that subject's triples.
  */
  lemma StructuredLinesContents(triples: seq<Triple>)
    ensures |StructuredLines(triples)| == |HeadsOf(triples)|
    ensures forall subject :: subject in HeadsOf(triples) ==>
      exists k :: 0 <= k < |StructuredLines(triples)| &&
        StructuredLines(triples)[k] == Line(subject, Group(Sort(triples, TripleLess), subject))
    ensures forall subject, pair :: pair in Group(Sort(triples, TripleLess), subject) <==>
      Triple(subject, pair.0, pair.1) in triples
  {
    var subjects := SubjectOrder(HeadsOf(triples));
    DistinctCard(subjects);
    forall subject | subject in HeadsOf(triples)
      ensures exists k :: (0 <= k < |StructuredLines(triples)| &&
        StructuredLines(triples)[k] == Line(subject, Group(Sort(triples, TripleLess), subject)))
    {
      assert subject in Elems(subjects);
      var k :| 0 <= k < |subjects| && subjects[k] == subject;
      assert StructuredLines(triples)[k] == Line(subject, Group(Sort(triples, TripleLess), subject));
    }
    var sorted := Sort(triples, TripleLess);
    forall subject, pair ensures pair in Group(sorted, subject) <==> Triple(subject, pair.0, pair.1) in triples {
      GroupMembers(sorted, subject, pair);
      assert Triple(subject, pair.0, pair.1) in sorted <==> Triple(subject, pair.0, pair.1) in multiset(sorted);
    }
  }

  // ---------------------------------------------------------------------------

  /** `generate_context`: dispatch on the format name; any other name is an error naming it. */
  method GenerateContext(triples: seq<Triple>, formatType: string) returns (r: Result<string, string>)
    ensures formatType == "natural" ==> r == Ok(NaturalContext(triples))
    ensures formatType == "structured" ==> r == Ok(Structured(triples))
    ensures formatType != "natural" && formatType != "structured" ==>
      r == Err("Unsupported format type: " + formatType)
  {
    if formatType == "natural" {
      r := Ok(NaturalContext(triples));
    } else if formatType == "structured" {
      var text := StructuredContext(triples);
      r := Ok(text);
    } else {
      r := Err("Unsupported format type: " + formatType);
    }
  }
}
