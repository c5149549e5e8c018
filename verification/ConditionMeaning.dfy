/** What conditions mean in the end: which value an operand stands for, when a value is true, and how
    two values compare. */
module ConditionMeaning {

  import opened Options
  import opened Text
  import opened ConditionEvaluator
  import opened ConditionGrammar

  // ----- What an operand stands for -----

  /** The text is the given lower-case word, in any case. */
  predicate IsWord(text: string, word: string) {
    && |text| == |word|
    && forall i :: 0 <= i < |text| ==> text[i] == word[i] || ('a' <= word[i] <= 'z' && text[i] as int == word[i] as int - 32)
  }

  predicate LowerWord(word: string) {
    forall i :: 0 <= i < |word| ==> !('A' <= word[i] <= 'Z')
  }

  lemma IsWordIff(text: string, word: string)
    requires LowerWord(word)
    ensures ToLower(text) == word <==> IsWord(text, word)
  {
    if IsWord(text, word) {
      assert forall i :: 0 <= i < |text| ==> Lower(text[i]) == word[i];
    }
    if ToLower(text) == word {
      forall i | 0 <= i < |text|
        ensures text[i] == word[i] || ('a' <= word[i] <= 'z' && text[i] as int == word[i] as int - 32)
      {
        assert ToLower(text)[i] == Lower(text[i]);
      }
    }
  }

  /** Begins and ends with the same kind of quote. */
  predicate InQuotes(text: string) {
    text != "" && text[0] == text[|text| - 1] && (text[0] == '\'' || text[0] == '"')
  }

  /** The trimmed text stands for v: for what is between its quotes; for a number; for one of the words
      true, false, null and nil; or for a field of that name. */
  ghost predicate Denotes(env: Env, text: string, v: Value) {
    if InQuotes(text) then v.Str? && (text == "'" + v.s + "'" || text == "\"" + v.s + "\"")
    else if env.parseFloat(text).Some? then v == Float(env.parseFloat(text).value)
    else if IsWord(text, "true") then v == Bool(true)
    else if IsWord(text, "false") then v == Bool(false)
    else if IsWord(text, "null") || IsWord(text, "nil") then v == Nil
    else env.field(text) == Some(v)
  }

  lemma BetweenQuotes(text: string, inner: string)
    requires InQuotes(text)
    ensures (text == "'" + inner + "'" || text == "\"" + inner + "\"") <==> |text| >= 2 && inner == text[1..|text| - 1]
  {
    if |text| >= 2 && inner == text[1..|text| - 1] {
      assert text == [text[0]] + inner + [text[0]];
    }
  }

  lemma DenotesIff(env: Env, text: string, v: Value)
    requires Trimmed(text) && text != ""
    ensures ResolveValue(env, text) == Resolved(v) <==> Denotes(env, text, v)
  {
    hide *;
    if InQuotes(text) { QuotedDenotesIff(env, text, v); } else { UnquotedDenotesIff(env, text, v); }
  }

  lemma QuotedDenotesIff(env: Env, text: string, v: Value)
    requires Trimmed(text) && text != "" && InQuotes(text)
    ensures ResolveValue(env, text) == Resolved(v) <==> Denotes(env, text, v)
  {
    TrimPadded(text);
    InQuotesIff(text);
    hide TrimSpace, ToLower, IsWord, InQuotes, Quoted;
    if v.Str? { BetweenQuotes(text, v.s); }
  }

  lemma UnquotedDenotesIff(env: Env, text: string, v: Value)
    requires Trimmed(text) && text != "" && !InQuotes(text)
    ensures ResolveValue(env, text) == Resolved(v) <==> Denotes(env, text, v)
  {
    TrimPadded(text);
    InQuotesIff(text);
    IsWordIff(text, "true");
    IsWordIff(text, "false");
    IsWordIff(text, "null");
    IsWordIff(text, "nil");
    hide TrimSpace, ToLower, IsWord, InQuotes, Quoted;
  }

  lemma InQuotesIff(text: string)
    ensures InQuotes(text) <==> Quoted(text, '\'') || Quoted(text, '"')
  {
  }

  // ----- When a value is true -----

  /** Only two numbers are at stake: nothing but a Go int of zero is a false number. */
  predicate IsTrue(v: Value) {
    || v.Float? || v.Other? || v == Bool(true)
    || (v.Int? && v.i != 0)
    || (v.Str? && (IsWord(v.s, "true") || IsWord(v.s, "yes") || IsWord(v.s, "1")))
  }

  lemma TrueIff(v: Value)
    ensures ToBool(v) <==> IsTrue(v)
  {
    if v.Str? {
      IsWordIff(v.s, "true");
      IsWordIff(v.s, "yes");
      IsWordIff(v.s, "1");
      hide ToLower, IsWord;
    }
  }

  /** A single operand is as true as the value it stands for. */
  lemma OperandTruth(env: Env, text: string, v: Value)
    requires Plain(text) && Unmarked(text) && Denotes(env, text, v)
    requires IsWord(text, "true") || IsWord(text, "false") ==> env.parseFloat(text).None?
    ensures Evaluate(env, text) == Ok(IsTrue(v))
  {
    PlainTrimmed(text);
    DenotesIff(env, text, v);
    TrueIff(v);
    IsWordIff(text, "true");
    IsWordIff(text, "false");
    TrimPadded(text);
    WordsUnquoted(text);
    hide Evaluate, Plain, Unmarked, ResolveValue, ToLower, IsWord, ToBool;
    EvaluateLeaf(env, text, text);
  }

  /** Nothing at all is an error of its own; white space alone is looked up as a field without a name. */
  lemma NothingWritten(env: Env, text: string)
    requires TrimSpace(text) == "" && env.parseFloat("").None? && env.field("").None?
    ensures Evaluate(env, text) == Err(if text == "" then EmptyExpression else FieldError(""))
  {
    assert TrimSpace("") == "" && ToLower("") == "";
    hide TrimSpace;
    assert forall k :: 0 <= k < |PATTERNS| ==> PATTERNS[k] != "";
    NoneSplits(env, 0);
    NoneCompares(env, 0);
  }

  lemma {:induction false} NoneSplits(env: Env, k: nat)
    requires k <= |PATTERNS|
    ensures SplitLogical(env, "", k) == None
    decreases |PATTERNS| - k
  {
    if k < |PATTERNS| { NoneSplits(env, k + 1); }
  }

  lemma {:induction false} NoneCompares(env: Env, k: nat)
    requires k <= |OPERATORS|
    ensures EvaluateComparison(env, "", k) == None
    decreases |OPERATORS| - k
  {
    if k < |OPERATORS| { NoneCompares(env, k + 1); }
  }

  lemma WordsUnquoted(text: string)
    ensures IsWord(text, "true") || IsWord(text, "false") ==> !InQuotes(text)
    ensures !(IsWord(text, "true") && IsWord(text, "false"))
  {
  }

  /** An operand that is no literal and names no field is an error, and so is a comparison with it on
      the left. */
  lemma UnknownOperand(env: Env, text: string, op: nat, spaced: bool, right: string)
    requires Plain(text) && Unmarked(text) && !InQuotes(text) && env.parseFloat(text).None? && env.field(text).None?
    requires !IsWord(text, "true") && !IsWord(text, "false") && !IsWord(text, "null") && !IsWord(text, "nil")
    requires op < |OPERATORS| && Plain(right)
    ensures Evaluate(env, text) == Err(FieldError(text))
    ensures Evaluate(env, text + OpText(op, spaced) + right) == Err(FieldError(text))
  {
    PlainTrimmed(text);
    TrimPadded(text);
    UnknownUnresolved(env, text);
    IsWordIff(text, "true");
    IsWordIff(text, "false");
    hide Evaluate, Plain, Unmarked, ResolveValue, ToLower, IsWord, TrimSpace;
    EvaluateLeaf(env, text, text);
    ComparisonWhole(env, text, op, spaced, right);
  }

  /** And so is one with it on the right, once the left side stands for a value. */
  lemma UnknownRight(env: Env, left: string, v: Value, op: nat, spaced: bool, text: string)
    requires Plain(left) && Unmarked(left) && Denotes(env, left, v) && op < |OPERATORS|
    requires Plain(text) && !InQuotes(text) && env.parseFloat(text).None? && env.field(text).None?
    requires !IsWord(text, "true") && !IsWord(text, "false") && !IsWord(text, "null") && !IsWord(text, "nil")
    ensures Evaluate(env, left + OpText(op, spaced) + text) == Err(FieldError(text))
  {
    PlainTrimmed(left);
    PlainTrimmed(text);
    DenotesIff(env, left, v);
    UnknownUnresolved(env, text);
    hide Evaluate, Plain, Unmarked, ResolveValue, Denotes, IsWord;
    ComparisonWhole(env, left, op, spaced, text);
  }

  lemma UnknownUnresolved(env: Env, text: string)
    requires Trimmed(text) && text != "" && !InQuotes(text) && env.parseFloat(text).None? && env.field(text).None?
    requires !IsWord(text, "true") && !IsWord(text, "false") && !IsWord(text, "null") && !IsWord(text, "nil")
    ensures ResolveValue(env, text) == Unresolved(FieldError(text))
  {
    TrimPadded(text);
    InQuotesIff(text);
    IsWordIff(text, "true");
    IsWordIff(text, "false");
    IsWordIff(text, "null");
    IsWordIff(text, "nil");
    hide TrimSpace, ToLower, IsWord, InQuotes, Quoted;
  }

  lemma ComparisonWhole(env: Env, left: string, op: nat, spaced: bool, right: string)
    requires Plain(left) && Unmarked(left) && Plain(right) && op < |OPERATORS|
    ensures Evaluate(env, left + OpText(op, spaced) + right) == CompareTexts(env, left, right, OPERATORS[op])
  {
    hide Evaluate, Plain, Unmarked, CompareTexts;
    EvaluateWhole(env, Compare(op, spaced, left, right), 0);
  }

  // ----- How values compare -----

  ghost predicate NumberOf(env: Env, v: Value, x: real) {
    v == Float(x) || (v.Int? && v.i as real == x) || (v.Str? && env.parseFloat(v.s) == Some(x))
  }

  ghost predicate IsNumber(env: Env, v: Value) {
    exists x :: NumberOf(env, v, x)
  }

  lemma NumberIff(env: Env, v: Value)
    ensures ToFloat(env, v).Some? <==> IsNumber(env, v)
    ensures forall x :: NumberOf(env, v, x) <==> ToFloat(env, v) == Some(x)
  {
    if ToFloat(env, v).Some? { assert NumberOf(env, v, ToFloat(env, v).value); }
  }

  /** a comes before b: it is a proper prefix of b, or has the smaller character where they first differ. */
  ghost predicate ComesBefore(a: string, b: string) {
    exists k :: 0 <= k <= |a| && k < |b| && FirstDifference(a, b, k)
  }

  ghost predicate FirstDifference(a: string, b: string, k: nat)
    requires k <= |a| && k < |b|
  {
    a[..k] == b[..k] && (k == |a| || a[k] < b[k])
  }

  lemma {:induction false} LessIff(a: string, b: string)
    ensures Less(a, b) <==> ComesBefore(a, b)
    decreases |a|
  {
    if b != [] && a == [] {
      assert FirstDifference(a, b, 0);
    } else if b != [] && a[0] != b[0] {
      if a[0] < b[0] { assert FirstDifference(a, b, 0); }
      if k :| 0 <= k <= |a| && k < |b| && FirstDifference(a, b, k) {
        if k > 0 { SameStart(a, b, k); }
      }
    } else if b != [] {
      LessIff(a[1..], b[1..]);
      if ComesBefore(a[1..], b[1..]) {
        var k :| 0 <= k <= |a| - 1 && k < |b| - 1 && FirstDifference(a[1..], b[1..], k);
        LaterDifference(a, b, k);
      }
      if ComesBefore(a, b) {
        var k :| 0 <= k <= |a| && k < |b| && FirstDifference(a, b, k);
        LaterDifference(a, b, k - 1);
      }
    }
  }

  lemma SameStart(a: string, b: string, k: nat)
    requires 0 < k <= |a| && k < |b| && FirstDifference(a, b, k)
    ensures a[0] == b[0]
  {
    assert a[..k][0] == b[..k][0];
  }

  lemma LaterDifference(a: string, b: string, k: nat)
    requires a != [] && b != [] && a[0] == b[0] && k <= |a| - 1 && k < |b| - 1
    ensures FirstDifference(a, b, k + 1) <==> FirstDifference(a[1..], b[1..], k)
  {
    assert a[..k + 1] == [a[0]] + a[1..][..k];
    assert b[..k + 1] == [b[0]] + b[1..][..k];
    assert a[1..][..k] == b[1..][..k] <==> a[..k + 1] == b[..k + 1] by {
      if a[..k + 1] == b[..k + 1] {
        assert a[1..][..k] == a[..k + 1][1..] == b[..k + 1][1..] == b[1..][..k];
      }
    }
  }

  /** Of two texts exactly one of three holds: they are equal, or one or the other comes before. */
  lemma {:induction false} Trichotomy(a: string, b: string)
    ensures a == b || ComesBefore(a, b) || ComesBefore(b, a)
    ensures !(ComesBefore(a, b) && ComesBefore(b, a)) && !ComesBefore(a, a)
  {
    LessIff(a, b);
    LessIff(b, a);
    LessIff(a, a);
    hide ComesBefore;
    LessTotal(a, b);
    LessTotal(a, a);
  }

  lemma {:induction false} LessTotal(a: string, b: string)
    ensures a == b || Less(a, b) || Less(b, a)
    ensures !(Less(a, b) && Less(b, a)) && (a == b ==> !Less(a, b))
    decreases |a|
  {
    if a != [] && b != [] && a[0] == b[0] {
      LessTotal(a[1..], b[1..]);
      assert a == [a[0]] + a[1..] && b == [b[0]] + b[1..];
    }
  }

  lemma {:induction false} LessTransitive(a: string, b: string, c: string)
    requires Less(a, b) && Less(b, c)
    ensures Less(a, c)
    decreases |a|
  {
    if a != [] && a[0] == b[0] == c[0] {
      LessTransitive(a[1..], b[1..], c[1..]);
    }
  }

  lemma ComesBeforeTransitive(a: string, b: string, c: string)
    requires ComesBefore(a, b) && ComesBefore(b, c)
    ensures ComesBefore(a, c)
  {
    LessIff(a, b);
    LessIff(b, c);
    LessIff(a, c);
    hide ComesBefore, Less;
    LessTransitive(a, b, c);
  }

  /** Two operands on either side of a comparison, and the values they stand for. */
  ghost predicate Sides(env: Env, l: string, r: string, v: Value, w: Value) {
    && Plain(l) && Unmarked(l) && Plain(r)
    && Denotes(env, l, v) && Denotes(env, r, w)
  }

  lemma SidesCompare(env: Env, l: string, r: string, v: Value, w: Value, op: nat, spaced: bool)
    requires Sides(env, l, r, v, w) && op < |OPERATORS|
    ensures Evaluate(env, l + OpText(op, spaced) + r) == CompareValues(env, v, w, OPERATORS[op])
  {
    PlainTrimmed(l);
    PlainTrimmed(r);
    DenotesIff(env, l, v);
    DenotesIff(env, r, w);
    hide Evaluate, Plain, Unmarked, ResolveValue, Denotes, CompareValues;
    ComparisonWhole(env, l, op, spaced, r);
  }

  /** The text of a comparison, with or without spaces around the operator. */
  function Written(l: string, op: string, spaced: bool, r: string): string {
    l + (if spaced then " " + op + " " else op) + r
  }

  lemma AllCompare(env: Env, l: string, r: string, v: Value, w: Value, spaced: bool)
    requires Sides(env, l, r, v, w)
    ensures Evaluate(env, Written(l, "==", spaced, r)) == CompareValues(env, v, w, "==")
    ensures Evaluate(env, Written(l, "!=", spaced, r)) == CompareValues(env, v, w, "!=")
    ensures Evaluate(env, Written(l, ">=", spaced, r)) == CompareValues(env, v, w, ">=")
    ensures Evaluate(env, Written(l, "<=", spaced, r)) == CompareValues(env, v, w, "<=")
    ensures Evaluate(env, Written(l, ">", spaced, r)) == CompareValues(env, v, w, ">")
    ensures Evaluate(env, Written(l, "<", spaced, r)) == CompareValues(env, v, w, "<")
  {
    hide Evaluate, CompareValues, Sides;
    forall op | 0 <= op < |OPERATORS|
      ensures Evaluate(env, Written(l, OPERATORS[op], spaced, r)) == CompareValues(env, v, w, OPERATORS[op])
    {
      SidesCompare(env, l, r, v, w, op, spaced);
    }
    assert OPERATORS[0] == "==" && OPERATORS[1] == "!=" && OPERATORS[2] == ">=" && OPERATORS[3] == "<=";
    assert OPERATORS[4] == ">" && OPERATORS[5] == "<";
  }

  /** Two numbers compare as numbers. */
  lemma NumbersCompare(env: Env, l: string, r: string, v: Value, w: Value, x: real, y: real, spaced: bool)
    requires Sides(env, l, r, v, w) && NumberOf(env, v, x) && NumberOf(env, w, y)
    ensures Evaluate(env, Written(l, "==", spaced, r)) == Ok(x == y)
    ensures Evaluate(env, Written(l, "!=", spaced, r)) == Ok(x != y)
    ensures Evaluate(env, Written(l, ">=", spaced, r)) == Ok(x >= y)
    ensures Evaluate(env, Written(l, "<=", spaced, r)) == Ok(x <= y)
    ensures Evaluate(env, Written(l, ">", spaced, r)) == Ok(x > y)
    ensures Evaluate(env, Written(l, "<", spaced, r)) == Ok(x < y)
  {
    AllCompare(env, l, r, v, w, spaced);
    NumberIff(env, v);
    NumberIff(env, w);
    hide Evaluate, Sides, Written, ToFloat, NumberOf;
  }

  /** Numbers written out, as a reader sees them. */
  lemma LiteralsCompare(env: Env, l: string, r: string, x: real, y: real, spaced: bool)
    requires Plain(l) && Unmarked(l) && Plain(r) && !InQuotes(l) && !InQuotes(r)
    requires env.parseFloat(l) == Some(x) && env.parseFloat(r) == Some(y)
    ensures Evaluate(env, Written(l, "==", spaced, r)) == Ok(x == y)
    ensures Evaluate(env, Written(l, "!=", spaced, r)) == Ok(x != y)
    ensures Evaluate(env, Written(l, ">=", spaced, r)) == Ok(x >= y)
    ensures Evaluate(env, Written(l, "<=", spaced, r)) == Ok(x <= y)
    ensures Evaluate(env, Written(l, ">", spaced, r)) == Ok(x > y)
    ensures Evaluate(env, Written(l, "<", spaced, r)) == Ok(x < y)
  {
    hide Evaluate, Plain, Unmarked, Written, InQuotes;
    NumbersCompare(env, l, r, Float(x), Float(y), x, y, spaced);
  }

  /** Values that are not both numbers compare as they are formatted, character by character. */
  lemma TextsCompare(env: Env, l: string, r: string, v: Value, w: Value, spaced: bool)
    requires Sides(env, l, r, v, w) && !v.Nil? && !w.Nil? && !(IsNumber(env, v) && IsNumber(env, w))
    ensures Evaluate(env, Written(l, "==", spaced, r)) == Ok(env.format(v) == env.format(w))
    ensures Evaluate(env, Written(l, "!=", spaced, r)) == Ok(env.format(v) != env.format(w))
    ensures Evaluate(env, Written(l, "<", spaced, r)) == Ok(ComesBefore(env.format(v), env.format(w)))
    ensures Evaluate(env, Written(l, ">", spaced, r)) == Ok(ComesBefore(env.format(w), env.format(v)))
    ensures Evaluate(env, Written(l, ">=", spaced, r))
         == Ok(env.format(v) == env.format(w) || ComesBefore(env.format(w), env.format(v)))
    ensures Evaluate(env, Written(l, "<=", spaced, r))
         == Ok(env.format(v) == env.format(w) || ComesBefore(env.format(v), env.format(w)))
  {
    AllCompare(env, l, r, v, w, spaced);
    NumberIff(env, v);
    NumberIff(env, w);
    LessIff(env.format(v), env.format(w));
    LessIff(env.format(w), env.format(v));
    Trichotomy(env.format(v), env.format(w));
    hide Evaluate, Sides, Written, ToFloat, IsNumber, NumberOf, ComesBefore, Less;
  }

  /** Nil equals nil only, and has no order. */
  lemma NilCompares(env: Env, l: string, r: string, v: Value, w: Value, spaced: bool)
    requires Sides(env, l, r, v, w) && (v.Nil? || w.Nil?)
    ensures Evaluate(env, Written(l, "==", spaced, r)) == Ok(v.Nil? && w.Nil?)
    ensures Evaluate(env, Written(l, "!=", spaced, r)) == Ok(!(v.Nil? && w.Nil?))
    ensures Evaluate(env, Written(l, ">=", spaced, r)) == Err(NilOrdering)
    ensures Evaluate(env, Written(l, "<=", spaced, r)) == Err(NilOrdering)
    ensures Evaluate(env, Written(l, ">", spaced, r)) == Err(NilOrdering)
    ensures Evaluate(env, Written(l, "<", spaced, r)) == Err(NilOrdering)
  {
    AllCompare(env, l, r, v, w, spaced);
    hide Evaluate, Sides, Written;
  }

  // ----- What connectives do -----

  /** The second operand counts only where the first does not decide. */
  lemma ConnectivesDecide(env: Env, level: nat, a: Cond, b: Cond)
    requires level < |PATTERNS| && Printable(a) && Printable(b)
    requires WellFormed(a, level + 1) && LeadsPlain(a) && WellFormed(b, level)
    ensures var x, y := Evaluate(env, Print(a)), Evaluate(env, Print(b));
      var whole := Evaluate(env, Print(a) + PATTERNS[level] + Print(b));
      && (x.Err? ==> whole == x)
      && (PATTERNS[level] in [" and ", " AND ", " && ", "&&"] ==>
            (x == Ok(false) ==> whole == Ok(false)) && (x == Ok(true) ==> whole == y))
      && (PATTERNS[level] in [" or ", " OR ", " || ", "||"] ==>
            (x == Ok(true) ==> whole == Ok(true)) && (x == Ok(false) ==> whole == y))
  {
    var c := Binary(level, a, b);
    assert WellFormed(c, level) && Printable(c) && Print(c) == Print(a) + PATTERNS[level] + Print(b);
    SpellingsApart(level);
    hide Evaluate, WellFormed, Print;
    EvaluateWhole(env, a, level + 1);
    EvaluateWhole(env, b, level);
    EvaluateWhole(env, c, level);
  }

  lemma SpellingsApart(level: nat)
    requires level < |PATTERNS|
    ensures PATTERNS[level] in [" and ", " AND ", " && ", "&&"] <==> level < 4
    ensures PATTERNS[level] in [" or ", " OR ", " || ", "||"] <==> level >= 4
  {
    var ands, ors := [" and ", " AND ", " && ", "&&"], [" or ", " OR ", " || ", "||"];
    if level < 4 {
      assert ands[level] == PATTERNS[level];
      assert forall k :: 0 <= k < 4 ==> ors[k] != PATTERNS[level] by {
        assert PATTERNS[level][1] == 'a' || PATTERNS[level][1] == 'A' || PATTERNS[level][1] == '&';
        assert ors[0][1] == 'o' && ors[1][1] == 'O' && ors[2][1] == '|' && ors[3][1] == '|';
      }
    } else {
      assert ors[level - 4] == PATTERNS[level];
      assert forall k :: 0 <= k < 4 ==> ands[k] != PATTERNS[level] by {
        assert PATTERNS[level][1] == 'o' || PATTERNS[level][1] == 'O' || PATTERNS[level][1] == '|';
        assert ands[0][1] == 'a' && ands[1][1] == 'A' && ands[2][1] == '&' && ands[3][1] == '&';
      }
    }
  }

  /** A negation turns truth around and passes errors on. */
  lemma NegationTurns(env: Env, mark: Mark, arg: Cond, least: nat)
    requires WellFormed(arg, least) && Printable(arg) && !(mark.LowerNot? && arg.Not? && arg.mark.UpperNot?)
    ensures var x, whole := Evaluate(env, Print(arg)), Evaluate(env, MarkText(mark) + Print(arg));
      && (x.Err? ==> whole == x) && (x.Ok? ==> whole == Ok(!x.value))
  {
    hide Evaluate, Plain, Unmarked;
    var c := Not(mark, arg);
    EvaluateWhole(env, arg, least);
    EvaluateWhole(env, c, least);
  }
}
