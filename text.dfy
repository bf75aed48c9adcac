/**
  The text normalisations of the knowledge-graph code:
  `' '.join(text.lower().split())` before every embedding,
  `" ".join(graph.split())` and `" ".join(question.split()).rstrip("?") + "?"`
  when the prompt is built, and
  `" ".join(query.split()).lower().rstrip("?") + "?"` for the user's query.
*/
module Text {

  /** Python's `str.isspace` for one character: the separators `str.split()` splits on. */
  predicate IsSpace(c: char)
  {
    var n := c as int;
    || (9 <= n <= 13) || (28 <= n <= 32) || n == 0x85 || n == 0xA0 || n == 0x1680
    || (0x2000 <= n <= 0x200A) || n == 0x2028 || n == 0x2029 || n == 0x202F
    || n == 0x205F || n == 0x3000
  }

  /** A non-empty run of non-whitespace characters. */
  predicate IsWord(w: string)
  {
    |w| > 0 && forall i :: 0 <= i < |w| ==> !IsSpace(w[i])
  }

  /** The length of the longest whitespace-free prefix of `s`. */
  function WordLength(s: string): (n: nat)
    ensures n <= |s|
    ensures forall i :: 0 <= i < n ==> !IsSpace(s[i])
    ensures n < |s| ==> IsSpace(s[n])
  {
    if s == [] || IsSpace(s[0]) then 0 else 1 + WordLength(s[1..])
  }

  /** Python's `s.split()` without a separator: the maximal whitespace-free runs. */
  function Split(s: string): (words: seq<string>)
    ensures forall i :: 0 <= i < |words| ==> IsWord(words[i])
    decreases |s|
  {
    if s == [] then []
    else if IsSpace(s[0]) then Split(s[1..])
    else
      var n := WordLength(s);
      [s[..n]] + Split(s[n..])
  }

  /** Python's `sep.join(parts)`. */
  function JoinWith(parts: seq<string>, sep: string): string
  {
    if parts == [] then ""
    else if |parts| == 1 then parts[0]
    else parts[0] + sep + JoinWith(parts[1..], sep)
  }

  lemma {:induction false} JoinWithSnoc(parts: seq<string>, x: string, sep: string)
    ensures JoinWith(parts + [x], sep)
         == if parts == [] then x else JoinWith(parts, sep) + sep + x
  {
    if |parts| > 1 {
      assert (parts + [x])[1..] == parts[1..] + [x];
      JoinWithSnoc(parts[1..], x, sep);
    } else if |parts| == 1 {
      assert (parts + [x])[1..] == [x];
    }
  }

  /** No whitespace but single `' '` characters, each between two non-whitespace ones. */
  ghost predicate IsCollapsed(s: string)
  {
    forall i :: 0 <= i < |s| && IsSpace(s[i]) ==>
      s[i] == ' ' && 0 < i < |s| - 1 && !IsSpace(s[i + 1])
  }

  lemma {:induction false} JoinWordsCollapsed(words: seq<string>)
    requires forall i :: 0 <= i < |words| ==> IsWord(words[i])
    ensures IsCollapsed(JoinWith(words, " "))
    ensures words != [] ==> var s := JoinWith(words, " ");
      |s| > 0 && !IsSpace(s[0]) && !IsSpace(s[|s| - 1])
  {
    if |words| > 1 {
      var w, rest := words[0], JoinWith(words[1..], " ");
      JoinWordsCollapsed(words[1..]);
      var s := w + " " + rest;
      assert s == JoinWith(words, " ");
      forall i | 0 <= i < |s| && IsSpace(s[i])
        ensures s[i] == ' ' && 0 < i < |s| - 1 && !IsSpace(s[i + 1])
      {
        if i > |w| {
          assert s[i] == rest[i - |w| - 1];
        }
      }
    }
  }

  /** Python's `" ".join(s.split())`. */
  function Collapse(s: string): (r: string)
    ensures IsCollapsed(r)
  {
    JoinWordsCollapsed(Split(s));
    JoinWith(Split(s), " ")
  }

  lemma {:induction false} WordLengthOfWord(w: string, rest: string)
    requires IsWord(w) && (rest == [] || IsSpace(rest[0]))
    ensures WordLength(w + rest) == |w|
  {
    if |w| > 1 {
      assert (w + rest)[1..] == w[1..] + rest;
      WordLengthOfWord(w[1..], rest);
    } else {
      assert (w + rest)[1..] == rest;
    }
  }

  /** Splitting a space-joined list of words gives the words back. */
  lemma {:induction false} SplitJoin(words: seq<string>)
    requires forall i :: 0 <= i < |words| ==> IsWord(words[i])
    ensures Split(JoinWith(words, " ")) == words
  {
    if words != [] {
      var w := words[0];
      if |words| == 1 {
        WordLengthOfWord(w, []);
        assert w + [] == w;
        assert w[|w|..] == [];
      } else {
        var rest := JoinWith(words[1..], " ");
        var s := w + (" " + rest);
        assert s == JoinWith(words, " ");
        WordLengthOfWord(w, " " + rest);
        assert s[..|w|] == w && s[|w|..] == " " + rest;
        assert (" " + rest)[1..] == rest;
        SplitJoin(words[1..]);
        assert words == [w] + words[1..];
      }
    }
  }

  /** The collapse is idempotent. */
  lemma CollapseIdempotent(s: string)
    ensures Collapse(Collapse(s)) == Collapse(s)
  {
    SplitJoin(Split(s));
  }

  lemma SplitNonEmpty(s: string)
    requires s != [] && !IsSpace(s[0])
    ensures Split(s) != []
  {
  }

  /** An already collapsed string is left unchanged by the collapse. */
  lemma {:induction false} CollapsedFixpoint(s: string)
    requires IsCollapsed(s)
    ensures Collapse(s) == s
    decreases |s|
  {
    if s != [] {
      var n := WordLength(s);
      if n < |s| {
        var u := s[n + 1..];
        assert s[n] == ' ' && n + 1 < |s|;
        assert s[n..][1..] == u;
        assert IsCollapsed(u) by {
          forall i | 0 <= i < |u| && IsSpace(u[i])
            ensures u[i] == ' ' && 0 < i < |u| - 1 && !IsSpace(u[i + 1])
          {
            assert u[i] == s[n + 1 + i];
          }
        }
        CollapsedFixpoint(u);
        SplitNonEmpty(u);
        var ws := [s[..n]] + Split(u);
        assert Split(s) == ws;
        assert ws[1..] == Split(u);
        assert JoinWith(ws, " ") == s[..n] + " " + u;
        assert s == s[..n] + " " + u;
      } else {
        assert s[..n] == s && s[n..] == [];
        assert Split(s) == [s];
      }
    }
  }

  // ---------------------------------------------------------------------------
  // Lower case

  /**
    Python's `str.lower` on one character, for the ASCII letters; every other
    character is left as it is.
  */
  function LowerChar(c: char): char
  {
    if 'A' <= c <= 'Z' then (c as int + 32) as char else c
  }

  function Lower(s: string): string
  {
    seq(|s|, i requires 0 <= i < |s| => LowerChar(s[i]))
  }

  ghost predicate IsLower(s: string)
  {
    forall i :: 0 <= i < |s| ==> LowerChar(s[i]) == s[i]
  }

  lemma LowerFixpoint(s: string)
    requires IsLower(s)
    ensures Lower(s) == s
  {
  }

  lemma {:induction false} SplitKeepsLower(s: string)
    requires IsLower(s)
    ensures forall i :: 0 <= i < |Split(s)| ==> IsLower(Split(s)[i])
    decreases |s|
  {
    if s != [] {
      if IsSpace(s[0]) {
        SplitKeepsLower(s[1..]);
      } else {
        SplitKeepsLower(s[WordLength(s)..]);
      }
    }
  }

  lemma {:induction false} JoinKeepsLower(parts: seq<string>, sep: string)
    requires IsLower(sep) && forall i :: 0 <= i < |parts| ==> IsLower(parts[i])
    ensures IsLower(JoinWith(parts, sep))
  {
    if |parts| > 1 {
      JoinKeepsLower(parts[1..], sep);
    }
  }

  lemma LowerKeepsCollapsed(s: string)
    requires IsCollapsed(s)
    ensures IsCollapsed(Lower(s)) && IsLower(Lower(s))
  {
  }

  /** The normalisation applied to every text before it is embedded. */
  function NormalizeText(text: string): (r: string)
    ensures IsCollapsed(r) && IsLower(r)
  {
    SplitKeepsLower(Lower(text));
    JoinKeepsLower(Split(Lower(text)), " ");
    Collapse(Lower(text))
  }

  /** A lower-case collapsed string is already normal. */
  lemma NormalFixpoint(s: string)
    requires IsCollapsed(s) && IsLower(s)
    ensures NormalizeText(s) == s
  {
    LowerFixpoint(s);
    CollapsedFixpoint(s);
  }

  /** Normalising twice is normalising once. */
  lemma NormalizeTextIdempotent(text: string)
    ensures NormalizeText(NormalizeText(text)) == NormalizeText(text)
  {
    NormalFixpoint(NormalizeText(text));
  }

  // ---------------------------------------------------------------------------
  // Questions

  /** Python's `s.rstrip(c)` for one character `c`. */
  function RStrip(s: string, c: char): (r: string)
    ensures r <= s
    ensures r == [] || r[|r| - 1] != c
    ensures forall i :: |r| <= i < |s| ==> s[i] == c
  {
    if s != [] && s[|s| - 1] == c then RStrip(s[..|s| - 1], c) else s
  }

  /**
    Stripping the trailing `?` of a collapsed string and appending one `?`
    gives a collapsed string that the same step leaves unchanged.
  */
  lemma AppendQuestionMark(u: string)
    requires IsCollapsed(u)
    ensures var q := RStrip(u, '?') + "?";
      IsCollapsed(q) && RStrip(q, '?') == RStrip(u, '?')
  {
    var t := RStrip(u, '?');
    var q := t + "?";
    forall i | 0 <= i < |q| && IsSpace(q[i])
      ensures q[i] == ' ' && 0 < i < |q| - 1 && !IsSpace(q[i + 1])
    {
      assert i < |t| && q[i] == u[i];
      if i + 1 < |t| {
        assert q[i + 1] == u[i + 1];
      }
    }
    assert q[..|q| - 1] == t;
  }

  /** `" ".join(question.split()).rstrip("?") + "?"`, from `createQuery`. */
  function NormalizeQuestion(question: string): (r: string)
    ensures IsCollapsed(r)
    ensures |r| > 0 && r[|r| - 1] == '?' && (|r| == 1 || r[|r| - 2] != '?')
  {
    AppendQuestionMark(Collapse(question));
    RStrip(Collapse(question), '?') + "?"
  }

  lemma NormalizeQuestionIdempotent(question: string)
    ensures NormalizeQuestion(NormalizeQuestion(question)) == NormalizeQuestion(question)
  {
    var q := NormalizeQuestion(question);
    AppendQuestionMark(Collapse(question));
    CollapsedFixpoint(q);
  }

  /** `" ".join(query.split()).lower().rstrip("?") + "?"`, from `demonstrate_rag`. */
  function NormalizeUserQuery(query: string): (r: string)
    ensures IsCollapsed(r) && IsLower(r)
    ensures |r| > 0 && r[|r| - 1] == '?' && (|r| == 1 || r[|r| - 2] != '?')
  {
    var u := Lower(Collapse(query));
    LowerKeepsCollapsed(Collapse(query));
    AppendQuestionMark(u);
    RStrip(u, '?') + "?"
  }

  lemma NormalizeUserQueryIdempotent(query: string)
    ensures NormalizeUserQuery(NormalizeUserQuery(query)) == NormalizeUserQuery(query)
  {
    var q := NormalizeUserQuery(query);
    CollapsedFixpoint(q);
    LowerFixpoint(q);
    LowerKeepsCollapsed(Collapse(query));
    AppendQuestionMark(Lower(Collapse(query)));
  }

  /** The query handed to retrieval is already in the form retrieval normalises to. */
  lemma UserQueryIsNormal(query: string)
    ensures NormalizeText(NormalizeUserQuery(query)) == NormalizeUserQuery(query)
  {
    NormalFixpoint(NormalizeUserQuery(query));
  }
}
