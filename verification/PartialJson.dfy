/** Closing unfinished JSON text: the two scanners of the partial parser, and the suffix they add. */
module PartialJson {

  import opened Text

  // ----- The scanners -----

  /** What a scanner remembers: the closers still owed, and where it stands in a string. */
  datatype Scan = Scan(stack: string, inStr: bool, escaped: bool)

  const START := Scan("", false, false)

  function Top(s: string): char
    requires s != ""
  {
    s[|s| - 1]
  }

  function Pop(s: string): string
    requires s != ""
  {
    s[..|s| - 1]
  }

  /** One character. The loose scanner lets any closer close the innermost bracket; the strict one
      ignores a closer that does not match. */
  function Step(loose: bool, s: Scan, ch: char): Scan {
    if s.escaped then s.(escaped := false)
    else if ch == '\\' && s.inStr then s.(escaped := true)
    else if ch == '"' then s.(inStr := !s.inStr)
    else if s.inStr then s
    else if ch == '{' then s.(stack := s.stack + "}")
    else if ch == '[' then s.(stack := s.stack + "]")
    else if (ch == '}' || ch == ']') && s.stack != "" && (loose || Top(s.stack) == ch) then s.(stack := Pop(s.stack))
    else s
  }

  function ScanFrom(loose: bool, s: Scan, text: string): Scan {
    if text == "" then s else Step(loose, ScanFrom(loose, s, Pop(text)), Top(text))
  }

  function Reverse(s: string): string {
    if s == "" then "" else [Top(s)] + Reverse(Pop(s))
  }

  /** The missing quote and the closers owed, innermost first. */
  function Closing(s: Scan): string {
    (if s.inStr then "\"" else "") + Reverse(s.stack)
  }

  /** The scan of the main repair, which also copies its input. */
  method RepairScan(input: string) returns (result: string, stack: string, inStr: bool, escaped: bool)
    ensures result == input
    ensures Scan(stack, inStr, escaped) == ScanFrom(false, START, input)
  {
    result, stack, inStr, escaped := "", "", false, false;
    for i := 0 to |input|
      invariant result == input[..i]
      invariant Scan(stack, inStr, escaped) == ScanFrom(false, START, input[..i])
    {
      var ch := input[i];
      assert Pop(input[..i + 1]) == input[..i] && Top(input[..i + 1]) == ch;
      result := result + [ch];
      if escaped {
        escaped := false;
        continue;
      }
      if ch == '\\' && inStr {
        escaped := true;
        continue;
      }
      if ch == '"' {
        inStr := !inStr;
        continue;
      }
      if inStr {
        continue;
      }
      match ch {
        case '{' => stack := stack + "}";
        case '[' => stack := stack + "]";
        case _ =>
          if (ch == '}' || ch == ']') && |stack| > 0 && stack[|stack| - 1] == ch {
            stack := stack[..|stack| - 1];
          }
      }
    }
    assert input[..|input|] == input;
  }

  function Fallback(input: string): string {
    var t := TrimSpace(input);
    if t == "" then "{}" else t + Closing(ScanFrom(true, START, t))
  }

  method FallbackScan(input: string) returns (stack: string, inStr: bool)
    ensures var s := ScanFrom(true, START, input); stack == s.stack && inStr == s.inStr
  {
    var escaped := false;
    stack, inStr := "", false;
    for i := 0 to |input|
      invariant Scan(stack, inStr, escaped) == ScanFrom(true, START, input[..i])
    {
      var ch := input[i];
      assert Pop(input[..i + 1]) == input[..i] && Top(input[..i + 1]) == ch;
      if escaped {
        escaped := false;
        continue;
      }
      if ch == '\\' && inStr {
        escaped := true;
        continue;
      }
      if ch == '"' {
        inStr := !inStr;
        continue;
      }
      if inStr {
        continue;
      }
      match ch {
        case '{' => stack := stack + "}";
        case '[' => stack := stack + "]";
        case _ =>
          if (ch == '}' || ch == ']') && |stack| > 0 {
            stack := stack[..|stack| - 1];
          }
      }
    }
    assert input[..|input|] == input;
  }

  /** The closers owed, innermost first. */
  method CloseAll(stack: string) returns (closers: string)
    ensures closers == Reverse(stack)
  {
    closers := "";
    var i := |stack|;
    assert stack[..i] == stack;
    while i > 0
      invariant 0 <= i <= |stack|
      invariant closers + Reverse(stack[..i]) == Reverse(stack)
    {
      assert Pop(stack[..i]) == stack[..i - 1] && Top(stack[..i]) == stack[i - 1];
      i := i - 1;
      closers := closers + [stack[i]];
    }
  }

  method FallbackRepair(input: string) returns (repaired: string)
    ensures repaired == Fallback(input)
  {
    var text := TrimSpace(input);
    if text == "" {
      return "{}";
    }
    var stack, inStr := FallbackScan(text);
    hide ScanFrom, Reverse, TrimSpace;
    repaired := if inStr then text + "\"" else text;
    var closers := CloseAll(stack);
    repaired := repaired + closers;
  }

  // ----- Nesting, without a scanner -----

  datatype Lex = Outside | Inside | AfterBackslash

  /** Where a text ends, by the string syntax of RFC 8259, section 7. */
  function Mode(text: string): Lex {
    if text == "" then Outside
    else
      match Mode(Pop(text))
      case Outside => if Top(text) == '"' then Inside else Outside
      case Inside => if Top(text) == '"' then Outside else if Top(text) == '\\' then AfterBackslash else Inside
      case AfterBackslash => Inside
  }

  predicate Bracket(c: char) {
    c == '{' || c == '}' || c == '[' || c == ']'
  }

  /** The brackets outside strings. */
  function Skeleton(text: string): string {
    if text == "" then ""
    else Skeleton(Pop(text)) + if Mode(Pop(text)).Outside? && Bracket(Top(text)) then [Top(text)] else ""
  }

  predicate Pairs(open: char, close: char) {
    (open == '{' && close == '}') || (open == '[' && close == ']')
  }

  /** Brackets nest when removing adjacent pairs can empty them. */
  ghost predicate Nested(w: string)
    decreases |w|
  {
    w == "" || exists k :: 0 <= k < |w| - 1 && Pairs(w[k], w[k + 1]) && Nested(w[..k] + w[k + 2..])
  }

  ghost predicate WellNested(text: string) {
    Mode(text).Outside? && Nested(Skeleton(text))
  }

  /** Every closer so far closes the bracket it should: the brackets can be completed to nest. */
  ghost predicate MatchedSoFar(text: string) {
    exists w :: Nested(Skeleton(text) + w)
  }

  // ----- The stack against nesting -----

  datatype Owed = Owed(stack: string) | Broken

  function Take(o: Owed, c: char): Owed {
    match o
    case Broken => Broken
    case Owed(stack) =>
      if c == '{' then Owed(stack + "}")
      else if c == '[' then Owed(stack + "]")
      else if stack != "" && Top(stack) == c then Owed(Pop(stack))
      else Broken
  }

  function Owes(w: string): Owed {
    if w == "" then Owed("") else Take(Owes(Pop(w)), Top(w))
  }

  lemma OwesSnoc(w: string, c: char)
    ensures Owes(w + [c]) == Take(Owes(w), c)
  {
    assert Pop(w + [c]) == w;
  }

  lemma {:induction false} OwesAfter(a: string, b: string, c: string)
    requires Owes(a) == Owes(b)
    ensures Owes(a + c) == Owes(b + c)
    decreases |c|
  {
    hide Owes, Take;
    if c == "" {
      assert a + c == a && b + c == b;
    } else {
      var front, last := Pop(c), Top(c);
      OwesAfter(a, b, front);
      OwesSnoc(a + front, last);
      OwesSnoc(b + front, last);
      assert c == front + [last];
      assert a + c == a + front + [last] && b + c == b + front + [last];
    }
  }

  lemma PairOwesNothing(a: string, open: char, close: char)
    requires Pairs(open, close)
    ensures Owes(a + [open, close]) == Owes(a)
  {
    assert Pop(a + [open, close]) == a + [open] && Pop(a + [open]) == a;
    match Owes(a)
    case Broken =>
    case Owed(stack) => assert Pop(stack + [close]) == stack;
  }

  lemma DropPair(a: string, open: char, close: char, b: string, v: string)
    requires Pairs(open, close)
    ensures Owes((a + [open, close] + b) + v) == Owes((a + b) + v)
  {
    PairOwesNothing(a, open, close);
    OwesAfter(a + [open, close], a, b + v);
    hide Owes;
    assert (a + [open, close] + b) + v == a + [open, close] + (b + v);
    assert (a + b) + v == a + (b + v);
  }

  lemma PairAt(w: string, k: nat)
    requires k + 1 < |w|
    ensures w == w[..k] + [w[k], w[k + 1]] + w[k + 2..]
  {
  }

  lemma InnermostPair(w: string) returns (a: string, open: char, close: char, b: string)
    requires Nested(w) && w != ""
    ensures w == a + [open, close] + b && Pairs(open, close) && Nested(a + b)
  {
    var k :| 0 <= k < |w| - 1 && Pairs(w[k], w[k + 1]) && Nested(w[..k] + w[k + 2..]);
    a, open, close, b := w[..k], w[k], w[k + 1], w[k + 2..];
    hide Nested, Pairs;
    PairAt(w, k);
  }

  /** Nested brackets leave the stack as it was. */
  lemma {:induction false} NestedOwesNothing(w: string, v: string)
    requires Nested(w)
    ensures Owes(w + v) == Owes(v)
    decreases |w|
  {
    hide Owes, Pairs;
    if w == "" {
      assert w + v == v;
    } else {
      var a, open, close, b := InnermostPair(w);
      NestedOwesNothing(a + b, v);
      DropPair(a, open, close, b, v);
    }
  }

  lemma {:induction false} BrokenStays(a: string, b: string)
    requires Owes(a).Broken?
    ensures Owes(a + b).Broken?
    decreases |b|
  {
    if b == "" {
      assert a + b == a;
    } else {
      BrokenStays(a, Pop(b));
      assert Pop(a + b) == a + Pop(b);
    }
  }

  lemma PairNests(a: string, open: char, close: char, b: string)
    requires Pairs(open, close) && Nested(a + b)
    ensures Nested(a + [open] + ([close] + b))
  {
    var w := a + [open] + ([close] + b);
    assert w[|a|] == open && w[|a| + 1] == close;
    assert w[..|a|] + w[|a| + 2..] == a + b;
  }

  lemma ReversePush(s: string, c: char)
    ensures Reverse(s + [c]) == [c] + Reverse(s)
  {
    assert Pop(s + [c]) == s;
  }

  lemma OwesStep(front: string, c: char)
    requires Owes(front + [c]).Owed?
    ensures Owes(front).Owed?
    ensures c == '{' ==> Owes(front + [c]).stack == Owes(front).stack + "}"
    ensures c == '[' ==> Owes(front + [c]).stack == Owes(front).stack + "]"
    ensures c != '{' && c != '[' ==> Owes(front).stack == Owes(front + [c]).stack + [c]
  {
    assert Pop(front + [c]) == front;
  }

  lemma PayOne(front: string, c: char, after: string)
    ensures (front + [c]) + Reverse(after) == front + Reverse(after + [c])
  {
    ReversePush(after, c);
    hide Reverse;
    assert (front + [c]) + Reverse(after) == front + ([c] + Reverse(after));
  }

  /** Paying what is owed nests. */
  lemma {:induction false} PayingNests(w: string)
    requires Owes(w).Owed?
    ensures Nested(w + Reverse(Owes(w).stack))
    decreases |w|
  {
    if w != "" {
      hide Nested, Reverse, Owes;
      var front, c := Pop(w), Top(w);
      assert w == front + [c];
      OwesStep(front, c);
      PayingNests(front);
      var before, after := Owes(front).stack, Owes(w).stack;
      hide Pop, Top;
      if c == '{' || c == '[' {
        var close := if c == '{' then '}' else ']';
        ReversePush(before, close);
        PairNests(front, c, close, Reverse(before));
      } else {
        PayOne(front, c, after);
      }
    }
  }

  lemma MatchedIffOwed(text: string)
    ensures MatchedSoFar(text) <==> Owes(Skeleton(text)).Owed?
  {
    var w := Skeleton(text);
    if Owes(w).Owed? {
      PayingNests(w);
    }
    if v :| Nested(w + v) {
      NestedOwesNothing(w + v, "");
      assert w + v + "" == w + v;
      if Owes(w).Broken? { BrokenStays(w, v); }
    }
  }

  lemma {:induction false} OwesClosers(w: string)
    requires Owes(w).Owed?
    ensures forall i :: 0 <= i < |Owes(w).stack| ==> Owes(w).stack[i] == '}' || Owes(w).stack[i] == ']'
  {
    if w != "" {
      OwesClosers(Pop(w));
    }
  }

  // ----- The scanners against nesting -----

  function Expected(text: string): Scan
    requires Owes(Skeleton(text)).Owed?
  {
    Scan(Owes(Skeleton(text)).stack, !Mode(text).Outside?, Mode(text).AfterBackslash?)
  }

  lemma OwedBefore(text: string)
    requires text != "" && Owes(Skeleton(text)).Owed?
    ensures Owes(Skeleton(Pop(text))).Owed?
  {
    var w := Skeleton(Pop(text));
    if Mode(Pop(text)).Outside? && Bracket(Top(text)) {
      assert Pop(w + [Top(text)]) == w;
    } else {
      assert w + "" == w;
    }
  }

  /** One more character changes the owed closers and the string state as one step of either scanner. */
  lemma ExpectedStep(loose: bool, text: string)
    requires text != "" && Owes(Skeleton(text)).Owed? && Owes(Skeleton(Pop(text))).Owed?
    ensures Expected(text) == Step(loose, Expected(Pop(text)), Top(text))
  {
    var w := Skeleton(Pop(text));
    assert Pop(w + [Top(text)]) == w;
    assert w + "" == w;
  }

  /** As long as closers match, both scanners hold exactly the closers owed and the string state. */
  lemma {:induction false} ScannersAgree(loose: bool, text: string)
    requires MatchedSoFar(text)
    ensures Owes(Skeleton(text)).Owed? && ScanFrom(loose, START, text) == Expected(text)
  {
    hide MatchedSoFar, Step, Top;
    MatchedIffOwed(text);
    if text != "" {
      hide Expected, Skeleton, Owes, Mode;
      OwedBefore(text);
      MatchedIffOwed(Pop(text));
      ScannersAgree(loose, Pop(text));
      ExpectedStep(loose, text);
    }
  }

  // ----- Texts one after another -----

  lemma {:induction false} ScanAppend(loose: bool, s: Scan, a: string, b: string)
    ensures ScanFrom(loose, s, a + b) == ScanFrom(loose, ScanFrom(loose, s, a), b)
    decreases |b|
  {
    if b == "" {
      assert a + b == a;
    } else {
      ScanAppend(loose, s, a, Pop(b));
      assert Pop(a + b) == a + Pop(b);
    }
  }

  lemma {:induction false} AppendBrackets(text: string, w: string)
    requires forall i :: 0 <= i < |w| ==> Bracket(w[i])
    ensures Mode(text).Outside? ==> Mode(text + w).Outside? && Skeleton(text + w) == Skeleton(text) + w
    ensures Mode(text).Inside? ==> Mode(text + w).Inside?
    decreases |w|
  {
    if w == "" {
      assert text + w == text;
    } else {
      AppendBrackets(text, Pop(w));
      assert Pop(text + w) == text + Pop(w);
      assert w == Pop(w) + [Top(w)];
    }
  }

  lemma {:induction false} ReverseOf(s: string)
    ensures (forall c :: c in Reverse(s) ==> c in s) && |Reverse(s)| == |s|
  {
    if s != "" { ReverseOf(Pop(s)); }
  }

  lemma ClosingIsBrackets(text: string)
    requires Owes(Skeleton(text)).Owed?
    ensures var r := Reverse(Owes(Skeleton(text)).stack); forall i :: 0 <= i < |r| ==> Bracket(r[i])
  {
    hide Owes, Skeleton, Reverse;
    var stack := Owes(Skeleton(text)).stack;
    OwesClosers(Skeleton(text));
    ReverseOf(stack);
    var r := Reverse(stack);
    forall i | 0 <= i < |r| ensures Bracket(r[i]) {
      assert r[i] in r;
    }
  }

  lemma QuoteKeepsSkeleton(text: string)
    requires !Mode(text).Outside?
    ensures Skeleton(text + "\"") == Skeleton(text)
    ensures Mode(text + "\"") == if Mode(text).Inside? then Outside else Inside
  {
    assert Pop(text + "\"") == text;
  }

  lemma ClosedText(text: string, r: string)
    requires forall i :: 0 <= i < |r| ==> Bracket(r[i])
    ensures Mode(text).Outside? ==> Mode(text + r).Outside? && Skeleton(text + r) == Skeleton(text) + r
    ensures Mode(text).Inside? ==> Mode(text + ("\"" + r)).Outside? && Skeleton(text + ("\"" + r)) == Skeleton(text) + r
    ensures Mode(text).AfterBackslash? ==> Mode(text + ("\"" + r)).Inside?
  {
    if Mode(text).Outside? {
      AppendBrackets(text, r);
    } else {
      QuoteKeepsSkeleton(text);
      AppendBrackets(text + "\"", r);
      assert text + ("\"" + r) == text + "\"" + r;
    }
  }

  /** Appending the missing quote and the owed closers gives well-nested text outside any string,
      exactly when the text does not end in the middle of an escape. */
  lemma ClosingClosesIff(loose: bool, text: string)
    requires MatchedSoFar(text)
    ensures var s := ScanFrom(loose, START, text);
      WellNested(text + Closing(s)) <==> !s.escaped
  {
    hide Nested, Skeleton, Mode, Owes, ScanFrom, Reverse, MatchedSoFar, Bracket;
    ScannersAgree(loose, text);
    ClosingIsBrackets(text);
    PayingNests(Skeleton(text));
    ClosedText(text, Reverse(Owes(Skeleton(text)).stack));
    var s := ScanFrom(loose, START, text);
    if !s.inStr { assert Closing(s) == Reverse(s.stack); }
  }

  // ----- No shorter suffix -----

  lemma {:induction false} SkeletonGrows(text: string, t: string)
    ensures Skeleton(text) <= Skeleton(text + t)
    decreases |t|
  {
    if t == "" {
      assert text + t == text;
    } else {
      SkeletonGrows(text, Pop(t));
      assert Pop(text + t) == text + Pop(t);
    }
  }

  lemma MatchedPrefix(text: string, t: string)
    requires WellNested(text + t)
    ensures MatchedSoFar(text)
  {
    SkeletonGrows(text, t);
    var w := Skeleton(text + t)[|Skeleton(text)|..];
    assert Skeleton(text) + w == Skeleton(text + t);
  }

  /** One character pays at most one item of what is to be closed, and only by being its first item. */
  lemma ClosingStep(s: Scan, ch: char)
    requires s.escaped ==> s.inStr
    ensures var t := Step(false, s, ch);
      && |Closing(t)| >= |Closing(s)| - 1
      && (|Closing(t)| == |Closing(s)| - 1 ==> Closing(s) == [ch] + Closing(t))
  {
    var t := Step(false, s, ch);
    ReverseOf(s.stack);
    ReverseOf(t.stack);
    if |t.stack| < |s.stack| {
      assert s.stack == t.stack + [ch];
      ReversePush(t.stack, ch);
    }
    hide Reverse;
  }

  /** Whatever suffix closes a text is at least as long as the one appended, and if it is no longer,
      it is that one. */
  lemma {:induction false} NoShorterSuffix(text: string, t: string)
    requires WellNested(text + t)
    ensures MatchedSoFar(text)
    ensures |t| >= |Closing(ScanFrom(false, START, text))|
    ensures |t| == |Closing(ScanFrom(false, START, text))| ==> t == Closing(ScanFrom(false, START, text))
    decreases |t|
  {
    hide *;
    MatchedPrefix(text, t);
    if t == "" {
      assert text + t == text;
      NothingToClose(text);
    } else {
      ScannersAgree(false, text);
      var next := text + [t[0]];
      LastOf(text, t[0]);
      assert next + t[1..] == text + t;
      NoShorterSuffix(next, t[1..]);
      ScannersAgree(false, next);
      ExpectedStep(false, next);
      EscapedInString(text);
      ClosingStep(Expected(text), t[0]);
      assert t == [t[0]] + t[1..];
    }
  }

  lemma LastOf(text: string, ch: char)
    ensures text + [ch] != "" && Pop(text + [ch]) == text && Top(text + [ch]) == ch
  {
  }

  lemma EscapedInString(text: string)
    requires Owes(Skeleton(text)).Owed?
    ensures Expected(text).escaped ==> Expected(text).inStr
  {
  }

  lemma NothingToClose(text: string)
    requires WellNested(text)
    ensures Closing(ScanFrom(false, START, text)) == ""
  {
    NestedOwesNothing(Skeleton(text), "");
    hide Nested, ScanFrom, Skeleton, Mode;
    assert Skeleton(text) + "" == Skeleton(text);
    NestedMatched(text);
    ScannersAgree(false, text);
  }

  lemma NestedMatched(text: string)
    requires WellNested(text)
    ensures MatchedSoFar(text)
  {
    assert Skeleton(text) + "" == Skeleton(text);
  }

  // ----- Applying the repair twice -----

  predicate Closers(stack: string) {
    forall i :: 0 <= i < |stack| ==> stack[i] == '}' || stack[i] == ']'
  }

  lemma {:induction false} ScanState(loose: bool, text: string)
    ensures var s := ScanFrom(loose, START, text); Closers(s.stack) && (s.escaped ==> s.inStr)
  {
    if text != "" {
      ScanState(loose, Pop(text));
    }
  }

  /** Paying the closers owed empties the stack of either scanner. */
  lemma {:induction false} PayingEmpties(loose: bool, stack: string)
    requires Closers(stack)
    ensures ScanFrom(loose, Scan(stack, false, false), Reverse(stack)) == START
    decreases |stack|
  {
    if stack != "" {
      var c := Top(stack);
      assert ScanFrom(loose, Scan(stack, false, false), "") == Scan(stack, false, false);
      assert Pop([c]) == "" && Top([c]) == c;
      assert ScanFrom(loose, Scan(stack, false, false), [c]) == Scan(Pop(stack), false, false);
      ScanAppend(loose, Scan(stack, false, false), [c], Reverse(Pop(stack)));
      PayingEmpties(loose, Pop(stack));
    }
  }

  lemma {:induction false} ClosersInString(loose: bool, stack: string, w: string)
    requires Closers(w)
    ensures ScanFrom(loose, Scan(stack, true, false), w) == Scan(stack, true, false)
    decreases |w|
  {
    if w != "" {
      ClosersInString(loose, stack, Pop(w));
    }
  }

  /** After the closing suffix a scanner owes nothing, unless the text ended mid-escape. */
  lemma ScanOfClosed(loose: bool, text: string)
    ensures var s := ScanFrom(loose, START, text);
      ScanFrom(loose, START, text + Closing(s)) == if s.escaped then Scan(s.stack, true, false) else START
  {
    var s := ScanFrom(loose, START, text);
    ScanState(loose, text);
    ReverseOf(s.stack);
    var r := Reverse(s.stack);
    assert Closers(r) by {
      assert forall i :: 0 <= i < |r| ==> r[i] in r;
    }
    ScanAppend(loose, START, text, Closing(s));
    if s.inStr {
      assert Closing(s) == "\"" + r;
      ScanAppend(loose, s, "\"", r);
      assert Pop("\"") == "" && ScanFrom(loose, s, "") == s;
      if s.escaped { ClosersInString(loose, s.stack, r); } else { PayingEmpties(loose, s.stack); }
    } else {
      assert Closing(s) == r;
      PayingEmpties(loose, s.stack);
    }
  }

  /** The fallback repair is its own fixed point exactly when its input does not end mid-escape,
      mismatched closers included. */
  lemma FallbackTwiceIff(input: string)
    ensures Fallback(Fallback(input)) == Fallback(input)
       <==> TrimSpace(input) == "" || !ScanFrom(true, START, TrimSpace(input)).escaped
  {
    var t := TrimSpace(input);
    if t == "" {
      EmptyObject();
    } else {
      var s := ScanFrom(true, START, t);
      var u := Fallback(input);
      TrimIsTrimmed(input);
      ClosedIsTrimmed(t, s);
      TrimPadded(u);
      ScanOfClosed(true, t);
      assert u + "" == u;
      ScanState(true, t);
    }
  }

  lemma ClosedIsTrimmed(t: string, s: Scan)
    requires t != "" && Trimmed(t) && s == ScanFrom(true, START, t)
    ensures Trimmed(t + Closing(s))
  {
    ScanState(true, t);
    ReverseOf(s.stack);
    var c := Closing(s);
    if c != "" {
      var last := Top(c);
      if s.stack != "" {
        assert last == Top(Reverse(s.stack)) && last in Reverse(s.stack);
      }
      assert Top(t + c) == last;
    } else {
      assert t + c == t;
    }
  }

  lemma EmptyObject()
    ensures Fallback(Fallback("")) == "{}" && Fallback("{}") == "{}"
  {
    TrimPadded("{}");
    assert Pop("{}") == "{" && Pop("{") == "" && Top("{") == '{' && Top("{}") == '}';
    assert "" + "}" == "}" && Pop("}") == "";
    assert ScanFrom(true, START, "{") == Scan("}", false, false);
    assert ScanFrom(true, START, "{}") == START;
    assert "{}" + "" == "{}";
  }

  // ----- What each character does to the suffix -----

  lemma {:induction false} ScanMode(loose: bool, text: string)
    ensures var s := ScanFrom(loose, START, text);
      (s.inStr <==> !Mode(text).Outside?) && (s.escaped <==> Mode(text).AfterBackslash?)
  {
    if text != "" {
      ScanMode(loose, Pop(text));
    }
  }

  /** Outside strings a bracket puts its closer in front of the suffix, and a closer takes off the first
      one owed: the main scanner only the same, the fallback any. This holds of all texts, matched or not. */
  lemma SuffixOutside(loose: bool, t: string, c: char)
    requires Mode(t).Outside?
    ensures var owed, after := Closing(ScanFrom(loose, START, t)), Closing(ScanFrom(loose, START, t + [c]));
      && (c == '{' ==> after == "}" + owed)
      && (c == '[' ==> after == "]" + owed)
      && (c == '"' ==> after == "\"" + owed)
      && (c == '}' || c == ']' ==>
            after == if owed != "" && (loose || owed[0] == c) then owed[1..] else owed)
      && (!Bracket(c) && c != '"' ==> after == owed)
  {
    ScanMode(loose, t);
    OneStep(loose, t, c);
    hide ScanFrom, Mode, Reverse, Bracket;
    OwedAfter(loose, ScanFrom(loose, START, t), c);
  }

  lemma OneStep(loose: bool, t: string, c: char)
    ensures ScanFrom(loose, START, t + [c]) == Step(loose, ScanFrom(loose, START, t), c)
  {
    LastOf(t, c);
  }

  lemma OwedAfter(loose: bool, s: Scan, c: char)
    requires !s.inStr && !s.escaped
    ensures var after := Closing(Step(loose, s, c));
      && (c == '{' ==> after == "}" + Closing(s))
      && (c == '[' ==> after == "]" + Closing(s))
      && (c == '"' ==> after == "\"" + Closing(s))
      && (c == '}' || c == ']' ==>
            after == if Closing(s) != "" && (loose || Closing(s)[0] == c) then Closing(s)[1..] else Closing(s))
      && (!Bracket(c) && c != '"' ==> after == Closing(s))
  {
    LastOf(s.stack, '}');
    LastOf(s.stack, ']');
    assert "" + Reverse(s.stack) == Reverse(s.stack);
    assert "}" + Reverse(s.stack) == Reverse(s.stack + "}");
    assert "]" + Reverse(s.stack) == Reverse(s.stack + "]");
    if s.stack != "" {
      assert Reverse(s.stack)[1..] == Reverse(Pop(s.stack)) && Reverse(s.stack)[0] == Top(s.stack);
    }
    assert forall t: string :: "" + t == t;
    hide Reverse;
  }

  /** Inside a string only its closing quote changes the suffix. */
  lemma SuffixInside(loose: bool, t: string, c: char)
    requires !Mode(t).Outside?
    ensures var owed, after := Closing(ScanFrom(loose, START, t)), Closing(ScanFrom(loose, START, t + [c]));
      && owed != "" && owed[0] == '"'
      && after == if c == '"' && !Mode(t).AfterBackslash? then owed[1..] else owed
  {
    ScanMode(loose, t);
    OneStep(loose, t, c);
    hide ScanFrom, Mode, Reverse;
    var s := ScanFrom(loose, START, t);
    assert ("\"" + Reverse(s.stack))[1..] == Reverse(s.stack) == "" + Reverse(s.stack);
  }
}
