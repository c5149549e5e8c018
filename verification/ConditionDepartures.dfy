/** Where the condition evaluator departs from the usual reading or fails, and exactly when. */
module ConditionDepartures {

  import opened Options
  import opened Text
  import opened ConditionEvaluator
  import opened ConditionGrammar

  // ----- Crashing on a lone quote character -----

  predicate LoneQuote(s: string) {
    s == "'" || s == "\""
  }

  /** Reading a value crashes exactly on a lone quote character, in any white space. */
  lemma ResolveCrashesIff(env: Env, expr: string)
    ensures ResolveValue(env, expr) == Unresolved(Crash) <==> LoneQuote(TrimSpace(expr))
  {
    hide TrimSpace;
    var t := TrimSpace(expr);
    if |t| == 1 { assert t == [t[0]]; }
  }

  /** Words that share no letter with the operators are plain. */
  lemma PlainWord(w: string)
    requires w == "true" || w == "false" || w == "0" || LoneQuote(w)
    ensures Plain(w) && Unmarked(w)
  {
    forall k | 0 <= k < |PATTERNS| ensures Avoids(Padded(w), PATTERNS[k]) {
      var s, p := Padded(w), PATTERNS[k];
      forall i | 0 <= i <= |s| ensures !OccursAt(s, p, i) {
        Mismatch(s, p, i, if p[0] == ' ' && i < |s| && s[i] == ' ' then 1 else 0);
      }
    }
  }

  lemma LeafCrashesIff(env: Env, text: string)
    requires Trimmed(text) && text != ""
    ensures LeafMeaning(env, text) == Err(Crash) <==> LoneQuote(text)
  {
    TrimPadded(text);
    ResolveCrashesIff(env, text);
    if LoneQuote(text) { assert |ToLower(text)| == 1; }
    hide TrimSpace, ResolveValue;
  }

  /** A condition that is no more than a lone quote character crashes the evaluator. */
  lemma LoneQuoteCrashes(env: Env, s: string)
    requires LoneQuote(TrimSpace(s))
    ensures Evaluate(env, s) == Err(Crash)
  {
    hide Evaluate, LeafMeaning, Plain, Unmarked;
    var t := TrimSpace(s);
    PlainWord(t);
    PlainTrimmed(t);
    LeafCrashesIff(env, t);
    assert s != "";
    EvaluateLeaf(env, t, s);
  }

  /** No operand of the tree is a lone quote character. */
  predicate NoLoneQuote(c: Cond) {
    match c
    case Leaf(text) => !LoneQuote(text)
    case Compare(_, _, left, right) => !LoneQuote(left) && !LoneQuote(right)
    case Not(_, arg) => NoLoneQuote(arg)
    case Binary(_, a, b) => NoLoneQuote(a) && NoLoneQuote(b)
  }

  lemma CompareCrashes(env: Env, left: string, right: string, op: string)
    requires Plain(left) && Plain(right) && CompareTexts(env, left, right, op) == Err(Crash)
    ensures LoneQuote(left) || LoneQuote(right)
  {
    PlainTrimmed(left);
    PlainTrimmed(right);
    TrimPadded(left);
    TrimPadded(right);
    ResolveCrashesIff(env, left);
    ResolveCrashesIff(env, right);
    hide ResolveValue, TrimSpace, Plain;
  }

  lemma {:induction false} CrashingMeaning(env: Env, c: Cond, least: nat)
    requires WellFormed(c, least) && Printable(c) && NoLoneQuote(c)
    ensures Meaning(env, c) != Err(Crash)
  {
    hide LeafMeaning, Plain, Unmarked, CompareTexts, LoneQuote;
    match c
    case Leaf(text) => PlainTrimmed(text); LeafCrashesIff(env, text);
    case Compare(op, _, left, right) =>
      if CompareTexts(env, left, right, OPERATORS[op]) == Err(Crash) { CompareCrashes(env, left, right, OPERATORS[op]); }
    case Not(_, arg) => CrashingMeaning(env, arg, least);
    case Binary(level, a, b) => CrashingMeaning(env, a, level + 1); CrashingMeaning(env, b, level);
  }

  /** Without a lone quote among its operands no condition crashes. */
  lemma OnlyLoneQuotesCrash(env: Env, c: Cond, least: nat)
    requires WellFormed(c, least) && Printable(c) && NoLoneQuote(c)
    ensures Evaluate(env, Print(c)) != Err(Crash)
  {
    hide *;
    EvaluateWhole(env, c, least);
    CrashingMeaning(env, c, least);
  }

  /** An ordinary-looking condition crashes: a quoted text is not kept together when it holds an operator,
      so comparing with ' or ' compares with a lone quote. */
  lemma QuotedOrCrashes(env: Env, x: string, quote: string)
    requires Plain(x) && Unmarked(x) && ResolveValue(env, x).Resolved? && LoneQuote(quote)
    ensures Evaluate(env, (x + " == " + quote) + " or " + quote) == Err(Crash)
  {
    hide Evaluate, Plain, Unmarked;
    PlainWord(quote);
    PlainTrimmed(quote);
    TrimPadded(quote);
    ResolveCrashesIff(env, quote);
    hide ResolveValue, LeafMeaning, TrimSpace;
    var c := Compare(0, true, x, quote);
    var d := Binary(4, c, Leaf(quote));
    assert WellFormed(d, 0) && Printable(d);
    assert Print(c) == x + " == " + quote by {
      assert OpText(0, true) == " == ";
    }
    assert Meaning(env, c) == Err(Crash);
    EvaluateWhole(env, d, 0);
  }

  predicate NoQuotes(s: string) {
    forall i :: 0 <= i < |s| ==> s[i] != '\'' && s[i] != '"'
  }

  lemma NoQuotesTrim(s: string)
    requires NoQuotes(s)
    ensures NoQuotes(TrimSpace(s))
  {
    var a, b := TrimCuts(s);
  }

  /** Without a quote character no text crashes, whether or not it is a printed tree. */
  lemma {:induction false} UnquotedNeverCrashes(env: Env, s: string)
    requires NoQuotes(s)
    ensures Evaluate(env, s) != Err(Crash)
    decreases |s|, 2
  {
    hide NoQuotes, EvaluateLogical, EvaluateComparison, ResolveValue;
    if s != "" {
      NoQuotesTrim(s);
      LogicalUncrashed(env, TrimSpace(s));
      ComparisonUncrashed(env, TrimSpace(s), 0);
      ResolvingUncrashed(env, TrimSpace(s));
    }
  }

  lemma ResolvingUncrashed(env: Env, t: string)
    requires NoQuotes(t)
    ensures ResolveValue(env, t) != Unresolved(Crash)
  {
    NoQuotesTrim(t);
    ResolveCrashesIff(env, t);
  }

  lemma {:induction false} LogicalUncrashed(env: Env, t: string)
    requires NoQuotes(t)
    ensures EvaluateLogical(env, t) != Some(Err(Crash))
    decreases |t|, 1
  {
    hide Evaluate, SplitLogical;
    if HasPrefix(ToLower(t), "not ") {
      var sub := TrimPrefix(TrimPrefix(t, "not "), "NOT ");
      if sub != t { UnquotedNeverCrashes(env, sub); }
    } else if HasPrefix(t, "!") {
      UnquotedNeverCrashes(env, t[1..]);
    } else {
      SplitUncrashed(env, t, 0);
    }
  }

  lemma {:induction false} SplitUncrashed(env: Env, t: string, k: nat)
    requires NoQuotes(t)
    ensures SplitLogical(env, t, k) != Some(Err(Crash))
    decreases |t|, 0, |PATTERNS| - k
  {
    hide Evaluate, TrimSpace;
    if k < |PATTERNS| {
      var idx := Index(t, PATTERNS[k]);
      if idx > 0 {
        NoQuotesTrim(t[..idx]);
        NoQuotesTrim(t[idx + |PATTERNS[k]|..]);
        UnquotedNeverCrashes(env, TrimSpace(t[..idx]));
        UnquotedNeverCrashes(env, TrimSpace(t[idx + |PATTERNS[k]|..]));
      } else {
        SplitUncrashed(env, t, k + 1);
      }
    }
  }

  lemma {:induction false} ComparisonUncrashed(env: Env, t: string, k: nat)
    requires NoQuotes(t)
    ensures EvaluateComparison(env, t, k) != Some(Err(Crash))
    decreases |OPERATORS| - k
  {
    hide ResolveValue, TrimSpace;
    if k < |OPERATORS| {
      var idx := Index(t, OPERATORS[k]);
      if idx > 0 {
        NoQuotesTrim(t[..idx]);
        NoQuotesTrim(t[idx + |OPERATORS[k]|..]);
        ResolvingUncrashed(env, TrimSpace(t[..idx]));
        ResolvingUncrashed(env, TrimSpace(t[idx + |OPERATORS[k]|..]));
      } else {
        ComparisonUncrashed(env, t, k + 1);
      }
    }
  }

  // ----- Endless recursion on a mixed-case "not " -----

  /** A "not " in neither of the two spellings the code consumes stands at position i. */
  predicate MixedAt(s: string, i: nat) {
    && i + 4 <= |s|
    && Lower(s[i]) == 'n' && Lower(s[i + 1]) == 'o' && Lower(s[i + 2]) == 't' && s[i + 3] == ' '
    && !(s[i] == 'n' && s[i + 1] == 'o' && s[i + 2] == 't')
    && !(s[i] == 'N' && s[i + 1] == 'O' && s[i + 2] == 'T')
  }

  ghost predicate NoMixed(s: string) {
    forall i :: 0 <= i < |s| ==> !MixedAt(s, i)
  }

  lemma NoMixedPart(s: string, a: nat, b: nat)
    requires a <= b <= |s| && NoMixed(s)
    ensures NoMixed(s[a..b])
  {
    var part := s[a..b];
    forall i | 0 <= i < |part| ensures !MixedAt(part, i) {
      assert !MixedAt(s, a + i);
    }
  }

  lemma NoMixedRest(s: string, a: nat)
    requires a <= |s| && NoMixed(s)
    ensures NoMixed(s[a..])
  {
    NoMixedPart(s, a, |s|);
    assert s[a..] == s[a..|s|];
  }

  lemma NoMixedTrim(s: string)
    requires NoMixed(s)
    ensures NoMixed(TrimSpace(s))
  {
    var a, b := TrimCuts(s);
    NoMixedPart(s, a, b);
  }

  /** At the head of a text this is exactly what makes the code recurse on the same text. */
  lemma MixedHeadIff(t: string)
    ensures MixedAt(t, 0) <==> HasPrefix(ToLower(t), "not ") && !HasPrefix(t, "not ") && !HasPrefix(t, "NOT ")
  {
    StartsNotIff(t);
    if StartsNot(t) {
      assert HasPrefix(t, "not ") <==> t[0] == 'n' && t[1] == 'o' && t[2] == 't' by { FourChars(t, "not "); }
      assert HasPrefix(t, "NOT ") <==> t[0] == 'N' && t[1] == 'O' && t[2] == 'T' by { FourChars(t, "NOT "); }
    }
  }

  lemma FourChars(t: string, p: string)
    requires |t| >= 4 && |p| == 4
    ensures HasPrefix(t, p) <==> t[0] == p[0] && t[1] == p[1] && t[2] == p[2] && t[3] == p[3]
  {
    if t[0] == p[0] && t[1] == p[1] && t[2] == p[2] && t[3] == p[3] {
      assert t[..4] == p;
    }
  }

  /** A text that begins with such a "not " is evaluated by evaluating itself, for ever. */
  lemma MixedNotIsEndless(env: Env, s: string)
    requires MixedAt(TrimSpace(s), 0)
    ensures Evaluate(env, s) == Err(Endless)
  {
    var t := TrimSpace(s);
    MixedHeadIff(t);
    assert EvaluateLogical(env, t) == Some(Err(Endless)) by {
      hide Evaluate, SplitLogical;
      assert TrimPrefix(TrimPrefix(t, "not "), "NOT ") == t;
    }
    hide EvaluateLogical;
    ByLogical(env, s, t, Err(Endless), 3);
  }

  /** Without one anywhere, evaluation of any text ends, whether or not it is a printed tree. */
  lemma {:induction false} EvaluationEnds(env: Env, s: string)
    requires NoMixed(s)
    ensures Evaluate(env, s) != Err(Endless)
    decreases |s|, 2
  {
    hide NoMixed, EvaluateLogical, EvaluateComparison, ResolveValue;
    if s != "" {
      NoMixedTrim(s);
      LogicalEnds(env, TrimSpace(s));
      ComparisonEnds(env, TrimSpace(s), 0);
      ResolvingEnds(env, TrimSpace(s));
    }
  }

  lemma {:induction false} LogicalEnds(env: Env, t: string)
    requires NoMixed(t)
    ensures EvaluateLogical(env, t) != Some(Err(Endless))
    decreases |t|, 1
  {
    hide Evaluate, SplitLogical;
    if HasPrefix(ToLower(t), "not ") {
      var sub := TrimPrefix(TrimPrefix(t, "not "), "NOT ");
      NotConsumed(t);
      EvaluationEnds(env, sub);
    } else if HasPrefix(t, "!") {
      NoMixedRest(t, 1);
      EvaluationEnds(env, t[1..]);
    } else {
      SplitEnds(env, t, 0);
    }
  }

  lemma NotConsumed(t: string)
    requires NoMixed(t) && HasPrefix(ToLower(t), "not ")
    ensures var sub := TrimPrefix(TrimPrefix(t, "not "), "NOT "); |sub| < |t| && NoMixed(sub)
  {
    MixedHeadIff(t);
    assert |t| >= 4 && !MixedAt(t, 0);
    hide NoMixed, MixedAt, ToLower;
    var once := TrimPrefix(t, "not ");
    if HasPrefix(t, "not ") { NoMixedRest(t, 4); }
    if HasPrefix(once, "NOT ") { NoMixedRest(once, 4); }
  }

  lemma {:induction false} SplitEnds(env: Env, t: string, k: nat)
    requires NoMixed(t)
    ensures SplitLogical(env, t, k) != Some(Err(Endless))
    decreases |t|, 0, |PATTERNS| - k
  {
    hide NoMixed, Evaluate, TrimSpace;
    if k < |PATTERNS| {
      var idx := Index(t, PATTERNS[k]);
      if idx > 0 {
        var left, right := t[..idx], t[idx + |PATTERNS[k]|..];
        NoMixedPart(t, 0, idx);
        NoMixedRest(t, idx + |PATTERNS[k]|);
        assert t[0..idx] == left;
        NoMixedTrim(left);
        NoMixedTrim(right);
        EvaluationEnds(env, TrimSpace(left));
        EvaluationEnds(env, TrimSpace(right));
      } else {
        SplitEnds(env, t, k + 1);
      }
    }
  }

  lemma ResolvingEnds(env: Env, t: string)
    ensures ResolveValue(env, t) != Unresolved(Endless)
  {
  }

  lemma {:induction false} ComparisonEnds(env: Env, t: string, k: nat)
    ensures EvaluateComparison(env, t, k) != Some(Err(Endless))
    decreases |OPERATORS| - k
  {
    hide ResolveValue, TrimSpace;
    if k < |OPERATORS| {
      var idx := Index(t, OPERATORS[k]);
      if idx > 0 {
        ResolvingEnds(env, TrimSpace(t[..idx]));
        ResolvingEnds(env, TrimSpace(t[idx + |OPERATORS[k]|..]));
      } else {
        ComparisonEnds(env, t, k + 1);
      }
    }
  }

  // ----- A negation lost -----

  /** After the spelling "not " a following "NOT " is swallowed: one of the two negations is lost. */
  lemma NotNotIsNot(env: Env, c: Cond, least: nat)
    requires WellFormed(c, least) && Printable(c)
    ensures Evaluate(env, "not " + ("NOT " + Print(c))) == Negate(Meaning(env, c))
  {
    hide Evaluate, Meaning;
    var t, sub := "not " + ("NOT " + Print(c)), Print(c);
    PrintEnds(c, least);
    TrimPadded(t);
    EvaluateWhole(env, c, least);
    StripsBoth(env, t, sub);
    ByLogical(env, t, t, Negate(Evaluate(env, sub)), 3);
  }

  lemma StripsBoth(env: Env, t: string, sub: string)
    requires t == "not " + ("NOT " + sub)
    ensures EvaluateLogical(env, t) == Some(Negate(Evaluate(env, sub)))
  {
    StartsNotIff(t);
    assert t[..4] == "not " && t[4..] == "NOT " + sub && ("NOT " + sub)[4..] == sub;
    hide Evaluate;
  }

  /** The double negation so spelled means what it says exactly when its operand is an error. */
  lemma DoubleNotIff(env: Env, c: Cond, least: nat)
    requires WellFormed(c, least) && Printable(c)
    ensures var d := Not(LowerNot, Not(UpperNot, c));
      Evaluate(env, Print(d)) == Meaning(env, d) <==> Meaning(env, c).Err?
  {
    NotNotIsNot(env, c, least);
    hide Evaluate;
  }

  // ----- Precedence -----

  /** "x and y or z", in any spelling of the operators and with operands that need no parentheses
      there, is read as "x and (y or z)". That is the usual "(x and y) or z" exactly when z is false
      wherever x is. */
  lemma AndSplitsFirst(env: Env, conj: nat, disj: nat, x: Cond, y: Cond, z: Cond)
    requires conj < 4 <= disj < |PATTERNS|
    requires WellFormed(x, disj + 1) && LeadsPlain(x) && WellFormed(y, disj + 1) && LeadsPlain(y) && WellFormed(z, disj)
    requires Printable(x) && Printable(y) && Printable(z)
    ensures var text := Print(x) + PATTERNS[conj] + (Print(y) + PATTERNS[disj] + Print(z));
      var mx, my, mz := Meaning(env, x), Meaning(env, y), Meaning(env, z);
      && Evaluate(env, text) == Combine(conj, mx, Combine(disj, my, mz))
      && (Evaluate(env, text) == Combine(disj, Combine(conj, mx, my), mz) <==> (mx == Ok(false) ==> mz == Ok(false)))
  {
    hide Evaluate, Plain, Unmarked, LeafMeaning, CompareTexts;
    var d := Binary(disj, y, z);
    var c := Binary(conj, x, d);
    WellFormedBelow(x, disj + 1, conj + 1);
    assert WellFormed(d, conj) && Printable(d);
    assert WellFormed(c, conj) && Printable(c);
    EvaluateWhole(env, c, conj);
    assert Meaning(env, d) == Combine(disj, Meaning(env, y), Meaning(env, z));
  }

  /** "x or y and z" is read as "(x or y) and z", which is the usual "x or (y and z)" exactly when z
      is true wherever x is. */
  lemma OrGroupsFirst(env: Env, conj: nat, disj: nat, x: Cond, y: Cond, z: Cond)
    requires conj < 4 <= disj < |PATTERNS|
    requires WellFormed(x, disj + 1) && LeadsPlain(x) && WellFormed(y, disj + 1) && LeadsPlain(y) && WellFormed(z, disj)
    requires Printable(x) && Printable(y) && Printable(z)
    ensures var text := (Print(x) + PATTERNS[disj] + Print(y)) + PATTERNS[conj] + Print(z);
      var mx, my, mz := Meaning(env, x), Meaning(env, y), Meaning(env, z);
      && Evaluate(env, text) == Combine(conj, Combine(disj, mx, my), mz)
      && (Evaluate(env, text) == Combine(disj, mx, Combine(conj, my, mz)) <==> (mx == Ok(true) ==> mz == Ok(true)))
  {
    hide Evaluate, Plain, Unmarked, LeafMeaning, CompareTexts;
    var d := Binary(disj, x, y);
    var c := Binary(conj, d, z);
    WellFormedBelow(y, disj + 1, disj);
    WellFormedBelow(z, disj, conj);
    assert WellFormed(d, conj + 1) && Printable(d) && LeadsPlain(d);
    assert WellFormed(c, conj) && Printable(c);
    EvaluateWhole(env, c, conj);
    assert Meaning(env, d) == Combine(disj, Meaning(env, x), Meaning(env, y));
  }

  lemma {:induction false} WellFormedBelow(c: Cond, least: nat, less: nat)
    requires WellFormed(c, least) && less <= least
    ensures WellFormed(c, less)
  {
    hide Plain, Unmarked;
    if c.Not? { WellFormedBelow(c.arg, least, less); }
  }

  /** Where the usual reading gives true, the code gives false. */
  lemma FalseAndTrueOrTrue(env: Env, f: string, t: string)
    requires f == "false" && t == "true"
    ensures Evaluate(env, f + " and " + (t + " or " + t)) == Ok(false)
  {
    hide Evaluate, Plain, Unmarked;
    PlainWord(f);
    PlainWord(t);
    AndSplitsFirst(env, 0, 4, Leaf(f), Leaf(t), Leaf(t));
    assert ToLower(f) == "false";
  }

  // ----- Zero -----

  /** A number is taken for its being nonzero exactly when it is not a zero other than the platform
      integer's. */
  lemma ToBoolIff(v: Value)
    requires v.Int? || v.Float?
    ensures var nonzero := if v.Int? then v.i != 0 else v.r != 0.0;
      (ToBool(v) <==> nonzero) <==> v != Float(0.0)
  {
  }

  /** Every number written in a condition is true, zero included. */
  lemma NumbersAreTruthy(env: Env, text: string, r: real)
    requires Plain(text) && Unmarked(text) && !Quoted(text, '\'') && !Quoted(text, '"')
    requires env.parseFloat(text) == Some(r) && ToLower(text) != "true" && ToLower(text) != "false"
    ensures Evaluate(env, text) == Ok(true)
  {
    hide Evaluate, Plain, Unmarked;
    PlainTrimmed(text);
    TrimPadded(text);
    EvaluateLeaf(env, text, text);
  }

  lemma ZeroIsTruthy(env: Env)
    requires env.parseFloat("0") == Some(0.0)
    ensures Evaluate(env, "0") == Ok(true)
  {
    PlainWord("0");
    assert ToLower("0")[0] == '0';
    NumbersAreTruthy(env, "0", 0.0);
  }
}
