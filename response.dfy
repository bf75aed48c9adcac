/**
  `parse_response`: turning the model's entity chains (after JSON decoding)
  into numbered cause-and-effect text.
*/
module Response {
  import opened Text

  // ---------------------------------------------------------------------------
  // `str(i)` for the sequence numbers

  predicate IsDigit(c: char)
  {
    '0' <= c <= '9'
  }

  function Digit(d: nat): (c: char)
    requires d < 10
    ensures IsDigit(c) && c as int - '0' as int == d
  {
    (d + '0' as int) as char
  }

  /** Python's `str(n)` for a non-negative integer: decimal digits, no leading zero. */
  function Decimal(n: nat): (s: string)
    ensures |s| > 0 && forall i :: 0 <= i < |s| ==> IsDigit(s[i])
    ensures s[0] == '0' ==> n == 0
  {
    if n < 10 then [Digit(n)] else Decimal(n / 10) + [Digit(n % 10)]
  }

  /** The value of a string of decimal digits (Python's `int(s)`). */
  function DecimalValue(s: string): nat
    requires forall i :: 0 <= i < |s| ==> IsDigit(s[i])
  {
    if s == [] then 0
    else
      var last := s[|s| - 1];
      assert IsDigit(last);
      DecimalValue(s[..|s| - 1]) * 10 + (last as int - '0' as int)
  }

  /** Reading the printed number back gives the number. */
  lemma {:induction false} DecimalRoundTrip(n: nat)
    ensures DecimalValue(Decimal(n)) == n
  {
    if n >= 10 {
      DecimalRoundTrip(n / 10);
      var s := Decimal(n);
      assert s[..|s| - 1] == Decimal(n / 10);
    }
  }

  /** Different sequence numbers are printed differently. */
  lemma DecimalInjective(m: nat, n: nat)
    requires Decimal(m) == Decimal(n)
    ensures m == n
  {
    DecimalRoundTrip(m);
    DecimalRoundTrip(n);
  }

  // ---------------------------------------------------------------------------
  // Cause-and-effect steps

  /** `f"{cause} leads to {effect}"` for every consecutive pair of the chain. */
  function CauseEffectSteps(chain: seq<string>): seq<string>
  {
    if |chain| < 2 then []
    else [chain[0] + " leads to " + chain[1]] + CauseEffectSteps(chain[1..])
  }

  /** A chain of `n >= 1` entities gives `n - 1` steps, the `i`-th linking entity `i` to entity `i + 1`. */
  lemma {:induction false} CauseEffectStepAt(chain: seq<string>)
    ensures |CauseEffectSteps(chain)| == if chain == [] then 0 else |chain| - 1
    ensures forall i :: 0 <= i < |chain| - 1 ==>
      CauseEffectSteps(chain)[i] == chain[i] + " leads to " + chain[i + 1]
  {
    if |chain| >= 2 {
      CauseEffectStepAt(chain[1..]);
    }
  }

  /** Splitting a chain at an entity splits its steps there: that entity is the effect of one step and the cause of the next. */
  lemma {:induction false} CauseEffectSplit(front: seq<string>, x: string, back: seq<string>)
    ensures CauseEffectSteps(front + [x] + back)
         == CauseEffectSteps(front + [x]) + CauseEffectSteps([x] + back)
  {
    if front != [] {
      CauseEffectSplit(front[1..], x, back);
      assert (front + [x] + back)[1..] == front[1..] + [x] + back;
      assert (front + [x])[1..] == front[1..] + [x];
    }
  }

  // ---------------------------------------------------------------------------
  // The rendered text

  /** `"\n" + f"Sequence {i} : "` */
  function Header(i: nat): string
  {
    "\nSequence " + Decimal(i) + " : "
  }

  /** The text for the step lists of `causeEffectMap`, numbered from `k`. */
  function RenderFrom(causeEffectMap: seq<seq<string>>, k: nat): string
  {
    if causeEffectMap == [] then ""
    else Header(k) + JoinWith(causeEffectMap[0], " -> ") + RenderFrom(causeEffectMap[1..], k + 1)
  }

  /** The step lists of all chains. */
  function CauseEffectMap(entitySequences: seq<seq<string>>): seq<seq<string>>
  {
    seq(|entitySequences|, i requires 0 <= i < |entitySequences| => CauseEffectSteps(entitySequences[i]))
  }

  /** What `parse_response` returns for the decoded chains. */
  function Response(entitySequences: seq<seq<string>>): string
  {
    RenderFrom(CauseEffectMap(entitySequences), 1)
  }

  /** Rendering two lists one after the other continues the numbering. */
  lemma {:induction false} RenderFromAppend(a: seq<seq<string>>, b: seq<seq<string>>, k: nat)
    ensures RenderFrom(a + b, k) == RenderFrom(a, k) + RenderFrom(b, k + |a|)
  {
    if a != [] {
      RenderFromAppend(a[1..], b, k + 1);
      assert (a + b)[0] == a[0] && (a + b)[1..] == a[1..] + b;
    } else {
      assert a + b == b;
    }
  }

  /** No chains give the empty text; each further chain appends its numbered section. */
  lemma ResponseSnoc(entitySequences: seq<seq<string>>, chain: seq<string>)
    ensures Response([]) == ""
    ensures Response(entitySequences + [chain])
         == Response(entitySequences) + Header(|entitySequences| + 1) + JoinWith(CauseEffectSteps(chain), " -> ")
  {
    assert CauseEffectMap([]) == [];
    var m := CauseEffectMap(entitySequences);
    var steps := CauseEffectSteps(chain);
    CauseEffectMapSnoc(entitySequences, chain);
    RenderFromAppend(m, [steps], 1);
    RenderOne(steps, |entitySequences| + 1);
    calc {
      Response(entitySequences + [chain]);
      RenderFrom(m + [steps], 1);
      RenderFrom(m, 1) + RenderFrom([steps], |m| + 1);
      Response(entitySequences) + (Header(|entitySequences| + 1) + JoinWith(steps, " -> "));
    }
  }

  lemma CauseEffectMapSnoc(entitySequences: seq<seq<string>>, chain: seq<string>)
    ensures CauseEffectMap(entitySequences + [chain]) == CauseEffectMap(entitySequences) + [CauseEffectSteps(chain)]
  {
    var all := entitySequences + [chain];
    var lhs := CauseEffectMap(all);
    var rhs := CauseEffectMap(entitySequences) + [CauseEffectSteps(chain)];
    assert |lhs| == |rhs|;
    forall i | 0 <= i < |lhs| ensures lhs[i] == rhs[i] {
      if i < |entitySequences| {
        assert all[i] == entitySequences[i];
      } else {
        assert all[i] == chain;
      }
    }
  }

  lemma RenderOne(steps: seq<string>, k: nat)
    ensures RenderFrom([steps], k) == Header(k) + JoinWith(steps, " -> ")
  {
    assert [steps][1..] == [];
  }

  // ---------------------------------------------------------------------------
  // The loops of `parse_response`

  /** Step 2: the cause-effect map, one list of steps per chain. */
  method BuildCauseEffectMap(entitySequences: seq<seq<string>>) returns (causeEffectMap: seq<seq<string>>)
    ensures causeEffectMap == CauseEffectMap(entitySequences)
  {
    causeEffectMap := [];
    for k := 0 to |entitySequences|
      invariant causeEffectMap == CauseEffectMap(entitySequences[..k])
    {
      var sequence := entitySequences[k];
      var sequenceMap: seq<string> := [];
      var i := 0;
      while i < |sequence| - 1
        invariant 0 <= i <= if sequence == [] then 0 else |sequence| - 1
        invariant |sequenceMap| == i
        invariant forall j :: 0 <= j < i ==> sequenceMap[j] == sequence[j] + " leads to " + sequence[j + 1]
      {
        var cause, effect := sequence[i], sequence[i + 1];
        sequenceMap := sequenceMap + [cause + " leads to " + effect];
        i := i + 1;
      }
      CauseEffectStepAt(sequence);
      assert |sequenceMap| == |CauseEffectSteps(sequence)|;
      forall j | 0 <= j < |sequenceMap| ensures sequenceMap[j] == CauseEffectSteps(sequence)[j] {
        assert j < |sequence| - 1;
        assert sequenceMap[j] == sequence[j] + " leads to " + sequence[j + 1];
      }
      assert sequenceMap == CauseEffectSteps(sequence);
      assert entitySequences[..k + 1] == entitySequences[..k] + [sequence];
      causeEffectMap := causeEffectMap + [sequenceMap];
    }
    assert entitySequences[..|entitySequences|] == entitySequences;
  }

  /** Step 3: number the step lists and join each list's steps with `" -> "`, using the `start` flag. */
  method RenderCauseEffectMap(causeEffectMap: seq<seq<string>>) returns (parsed: string)
    ensures parsed == RenderFrom(causeEffectMap, 1)
  {
    parsed := "";
    for i := 0 to |causeEffectMap|
      invariant parsed + RenderFrom(causeEffectMap[i..], i + 1) == RenderFrom(causeEffectMap, 1)
    {
      var sequenceMap := causeEffectMap[i];
      RenderFromAt(causeEffectMap, i);
      ghost var before := parsed;
      var header := Header(i + 1);
      parsed := parsed + header;
      parsed := AppendSteps(parsed, sequenceMap);
      ConcatAssoc(before, header, JoinWith(sequenceMap, " -> "), RenderFrom(causeEffectMap[i + 1..], i + 2));
    }
  }

  lemma ConcatAssoc(a: string, b: string, c: string, d: string)
    ensures a + b + c + d == a + (b + c + d)
  {
  }

  lemma RenderFromAt(causeEffectMap: seq<seq<string>>, i: nat)
    requires i < |causeEffectMap|
    ensures RenderFrom(causeEffectMap[i..], i + 1)
         == Header(i + 1) + JoinWith(causeEffectMap[i], " -> ") + RenderFrom(causeEffectMap[i + 1..], i + 2)
  {
    assert causeEffectMap[i..][1..] == causeEffectMap[i + 1..];
  }

  /** The inner loop of step 3: the first step as is, every later one after `" -> "`. */
  method AppendSteps(parsed: string, sequenceMap: seq<string>) returns (parsed': string)
    ensures parsed' == parsed + JoinWith(sequenceMap, " -> ")
  {
    parsed' := parsed;
    var start := 1;
    for j := 0 to |sequenceMap|
      invariant start == if j == 0 then 1 else 0
      invariant parsed' == parsed + JoinWith(sequenceMap[..j], " -> ")
    {
      var step := sequenceMap[j];
      assert sequenceMap[..j + 1] == sequenceMap[..j] + [step];
      JoinWithSnoc(sequenceMap[..j], step, " -> ");
      if start == 0 {
        parsed' := parsed' + " -> " + step;
      } else {
        parsed' := parsed' + step;
        start := 0;
      }
    }
    assert sequenceMap[..|sequenceMap|] == sequenceMap;
  }

  /** `parse_response` after `json.loads`: build the cause-effect map, then render it. */
  method ParseResponse(entitySequences: seq<seq<string>>) returns (parsed: string)
    ensures parsed == Response(entitySequences)
  {
    var causeEffectMap := BuildCauseEffectMap(entitySequences);
    parsed := RenderCauseEffectMap(causeEffectMap);
  }
}
