/** The main repair of partial JSON: trailing remains are cleaned up before the closers are added, and
    what then fails to parse is left to the fallback repair. */
module JsonRepair {

  import opened Text
  import opened PartialJson

  /** The position of the last c in s, or -1. */
  function LastIndex(s: string, c: char): (i: int)
    ensures -1 <= i < |s| && (i >= 0 ==> s[i] == c) && forall k :: i < k < |s| ==> s[k] != c
  {
    if s == "" then -1 else if Top(s) == c then |s| - 1 else LastIndex(Pop(s), c)
  }

  function TrimComma(s: string): string {
    if s != "" && Top(s) == ',' then Pop(s) else s
  }

  /** The text without trailing white space and then without one comma. */
  function Uncommaed(text: string): string {
    TrimComma(TrimRight(text))
  }

  /** Nothing but white space and at most a comma follows the last colon, and a quote precedes it. */
  predicate CutsKey(s: string) {
    var idx := LastIndex(s, ':');
    && idx >= 0
    && (TrimSpace(s[idx + 1..]) == "" || TrimSpace(s[idx + 1..]) == ",")
    && LastIndex(s[..idx], '"') >= 0
  }

  /** The text before the last quote before the last colon, which is the key's closing quote. */
  function CutKey(s: string): string
    requires CutsKey(s)
  {
    Uncommaed(s[..LastIndex(s[..LastIndex(s, ':')], '"')])
  }

  function Cleaned(text: string, inString: bool): string {
    if inString then text + "\""
    else if CutsKey(Uncommaed(text)) then CutKey(Uncommaed(text))
    else Uncommaed(text)
  }

  /** What the main repair tries first. */
  function Candidate(text: string): string {
    var s := ScanFrom(false, START, text);
    Cleaned(text, s.inStr) + Reverse(s.stack)
  }

  /** The whole repair; valid says which texts parse. */
  function Repair(valid: string -> bool, input: string): string {
    var text := TrimSpace(input);
    if text == "" then "" else if valid(Candidate(text)) then Candidate(text) else Fallback(text)
  }

  method CleanTrailingIncomplete(text: string, inString: bool) returns (s: string)
    ensures s == Cleaned(text, inString)
  {
    if inString {
      return text + "\"";
    }
    s := TrimRight(text);
    s := TrimComma(s);
    var idx := LastIndex(s, ':');
    if idx != -1 {
      var afterColon := TrimSpace(s[idx + 1..]);
      if afterColon == "" || afterColon == "," {
        var keyStart := LastIndex(s[..idx], '"');
        if keyStart != -1 {
          var prev := TrimRight(s[..keyStart]);
          if prev != "" && prev[|prev| - 1] == ',' {
            s := prev[..|prev| - 1];
          } else {
            s := prev;
          }
        }
      }
    }
  }

  method RepairJSON(valid: string -> bool, input: string) returns (repaired: string)
    ensures repaired == Repair(valid, input)
  {
    var text := TrimSpace(input);
    if text == "" {
      return "";
    }
    var result, stack, inStr, escaped := RepairScan(text);
    repaired := CleanTrailingIncomplete(result, inStr);
    var closers := CloseAll(stack);
    repaired := repaired + closers;
    if !valid(repaired) {
      repaired := FallbackRepair(text);
    }
  }

  // ----- Taking text off the end -----

  predicate NoQuote(w: string) {
    forall i :: 0 <= i < |w| ==> w[i] != '"'
  }

  /** White space and commas only. */
  predicate Filler(w: string) {
    forall i :: 0 <= i < |w| ==> IsSpace(w[i]) || w[i] == ','
  }

  /** Without a quote a text neither leaves nor enters a string. */
  lemma {:induction false} NoQuoteKeepsOutside(x: string, w: string)
    requires NoQuote(w)
    ensures Mode(x + w).Outside? <==> Mode(x).Outside?
    decreases |w|
  {
    if w == "" {
      assert x + w == x;
    } else {
      NoQuoteKeepsOutside(x, Pop(w));
      assert Pop(x + w) == x + Pop(w) && Top(x + w) == Top(w);
    }
  }

  lemma {:induction false} FillerKeepsSkeleton(x: string, w: string)
    requires Filler(w)
    ensures Skeleton(x + w) == Skeleton(x)
    decreases |w|
  {
    if w == "" {
      assert x + w == x;
    } else {
      FillerKeepsSkeleton(x, Pop(w));
      assert Pop(x + w) == x + Pop(w) && Top(x + w) == Top(w);
    }
  }

  lemma {:induction false} TrimRightDrops(s: string) returns (w: string)
    ensures s == TrimRight(s) + w && Filler(w)
    decreases |s|
  {
    if s != "" && IsSpace(s[|s| - 1]) {
      w := TrimRightDrops(Pop(s));
      w := w + [Top(s)];
    } else {
      w := "";
    }
  }

  lemma UncommaedDrops(s: string) returns (w: string)
    ensures s == Uncommaed(s) + w && Filler(w) && NoQuote(w)
  {
    w := TrimRightDrops(s);
    var t := TrimRight(s);
    if t != "" && Top(t) == ',' {
      assert t == Pop(t) + [','];
      w := [','] + w;
    }
  }

  lemma BlankIsFiller(w: string)
    requires TrimSpace(w) == "" || TrimSpace(w) == ","
    ensures Filler(w) && NoQuote(w)
  {
    var a, b := TrimCuts(w);
    hide TrimSpace;
    forall i | 0 <= i < |w| ensures IsSpace(w[i]) || w[i] == ',' {
      if !IsSpace(w[i]) { assert w[a..b][i - a] == w[i]; }
    }
  }

  /** A cut key leaves a string open: the cut is at the key's closing quote. */
  lemma CutKeyStaysInside(s: string)
    requires CutsKey(s) && Mode(s).Outside?
    ensures !Mode(CutKey(s)).Outside?
  {
    var idx := LastIndex(s, ':');
    var after := s[idx + 1..];
    BlankIsFiller(after);
    hide TrimSpace, TrimRight, IsSpace;
    var keyStart := LastIndex(s[..idx], '"');
    var key, rest := s[..keyStart], s[keyStart + 1..];
    forall k | 0 <= k < |rest| ensures rest[k] != '"' {
      if keyStart + 1 + k < idx { assert s[..idx][keyStart + 1 + k] == rest[k]; }
      if keyStart + 1 + k > idx { assert after[keyStart + k - idx] == rest[k]; }
    }
    assert s == (key + "\"") + rest;
    NoQuoteKeepsOutside(key + "\"", rest);
    assert Pop(key + "\"") == key;
    var w := UncommaedDrops(key);
    NoQuoteKeepsOutside(CutKey(s), w);
  }

  // ----- What the repair is worth -----

  lemma BracketsHoldNoQuote(r: string)
    requires forall i :: 0 <= i < |r| ==> Bracket(r[i])
    ensures NoQuote(r)
  {
  }

  lemma OutsideCandidate(text: string)
    requires MatchedSoFar(text) && Mode(text).Outside?
    ensures WellNested(Candidate(text)) <==> !CutsKey(Uncommaed(text))
  {
    ScannersAgree(false, text);
    var stack := Owes(Skeleton(text)).stack;
    ClosingIsBrackets(text);
    PayingNests(Skeleton(text));
    BracketsHoldNoQuote(Reverse(stack));
    hide Reverse, Owes, ScanFrom, Nested, Uncommaed, CutsKey, CutKey, Bracket;
    var s := Uncommaed(text);
    var w := UncommaedDrops(text);
    NoQuoteKeepsOutside(s, w);
    FillerKeepsSkeleton(s, w);
    hide Skeleton, Mode;
    if CutsKey(s) {
      CutKeyStaysInside(s);
      NoQuoteKeepsOutside(CutKey(s), Reverse(stack));
    } else {
      ClosedText(s, Reverse(stack));
    }
  }

  /** As long as closers match, what the main repair tries is well nested exactly when the text does
      not end in the middle of an escape and no key is cut off it. */
  lemma CandidateNestsIff(text: string)
    requires MatchedSoFar(text)
    ensures var s := ScanFrom(false, START, text);
      WellNested(Candidate(text)) <==> !s.escaped && (s.inStr || !CutsKey(Uncommaed(text)))
  {
    ScannersAgree(false, text);
    var s := ScanFrom(false, START, text);
    if s.inStr {
      ClosingClosesIff(false, text);
      assert Candidate(text) == text + Closing(s);
    } else {
      OutsideCandidate(text);
    }
  }

  /** Parsing accepts well-nested texts only. */
  ghost predicate Sound(valid: string -> bool) {
    forall t :: valid(t) ==> WellNested(t)
  }

  /** So when a key is cut, the main repair has been for nothing. */
  lemma CutKeyFallsBack(valid: string -> bool, input: string)
    requires Sound(valid) && TrimSpace(input) != "" && MatchedSoFar(TrimSpace(input))
    requires !ScanFrom(false, START, TrimSpace(input)).inStr && CutsKey(Uncommaed(TrimSpace(input)))
    ensures Repair(valid, input) == Fallback(input)
  {
    var text := TrimSpace(input);
    CandidateNestsIff(text);
    TrimIsTrimmed(input);
    TrimPadded(text);
    hide TrimSpace, Candidate, WellNested, CutsKey, Uncommaed;
  }

  /** In the end the repair gives a well-nested text exactly when its input does not end in the middle
      of an escape. */
  lemma RepairNestsIff(valid: string -> bool, input: string)
    requires Sound(valid) && TrimSpace(input) != "" && MatchedSoFar(TrimSpace(input))
    ensures WellNested(Repair(valid, input)) <==> !ScanFrom(false, START, TrimSpace(input)).escaped
  {
    var text := TrimSpace(input);
    CandidateNestsIff(text);
    ClosingClosesIff(true, text);
    ScannersAgree(true, text);
    ScannersAgree(false, text);
    TrimIsTrimmed(input);
    TrimPadded(text);
    hide TrimSpace, Candidate, WellNested, CutsKey, Uncommaed, Closing, MatchedSoFar, Expected;
  }

  // ----- What the repair gives -----

  /** w closes t, and nothing shorter does. */
  ghost predicate ClosesBest(t: string, w: string) {
    WellNested(t + w) && forall u :: WellNested(t + u) ==> |w| <= |u|
  }

  lemma BestIsClosing(loose: bool, t: string, w: string)
    requires ClosesBest(t, w) && !Mode(t).AfterBackslash?
    ensures MatchedSoFar(t) && w == Closing(ScanFrom(loose, START, t))
    ensures ScanFrom(loose, START, t).inStr <==> !Mode(t).Outside?
  {
    assert WellNested(t + w);
    NoShorterSuffix(t, w);
    ScannersAgree(false, t);
    ScannersAgree(loose, t);
    ClosingClosesIff(false, t);
    hide WellNested, Closing, MatchedSoFar, Mode;
  }

  /** Of an input that, trimmed, does not end in the middle of an escape nor, outside strings, in a comma
      or a colon, the repair is the input with the shortest suffix that closes it. */
  lemma RepairCompletes(valid: string -> bool, input: string, t: string, w: string)
    requires TrimSpace(input) == t != "" && ClosesBest(t, w) && !Mode(t).AfterBackslash?
    requires Mode(t).Outside? ==> Top(t) != ',' && Top(t) != ':'
    ensures Repair(valid, input) == t + w
  {
    hide TrimSpace, ClosesBest, Mode, Candidate, Fallback;
    TrimIsTrimmed(input);
    TrimPadded(t);
    CandidateCompletes(t, w);
    FallbackCompletes(t, t, w);
  }

  lemma CandidateCompletes(t: string, w: string)
    requires t != "" && Trimmed(t) && ClosesBest(t, w) && !Mode(t).AfterBackslash?
    requires Mode(t).Outside? ==> Top(t) != ',' && Top(t) != ':'
    ensures Candidate(t) == t + w
  {
    hide ClosesBest, MatchedSoFar, Mode, ScanFrom, TrimSpace, Uncommaed, CutsKey, Reverse, CutKey;
    BestIsClosing(false, t, w);
    if Mode(t).Outside? { NothingToClean(t); }
    var s := ScanFrom(false, START, t);
    assert s.inStr ==> t + w == (t + "\"") + Reverse(s.stack);
    assert !s.inStr ==> w == Reverse(s.stack);
  }

  lemma FallbackCompletes(input: string, t: string, w: string)
    requires TrimSpace(input) == t != "" && ClosesBest(t, w) && !Mode(t).AfterBackslash?
    ensures Fallback(input) == t + w
  {
    BestIsClosing(true, t, w);
    hide ClosesBest, MatchedSoFar, Mode, ScanFrom, TrimSpace, Closing;
  }

  /** Nothing in gives nothing, or, as the fallback alone would have it, the empty object. */
  lemma BlankRepair(valid: string -> bool, input: string)
    requires TrimSpace(input) == ""
    ensures Repair(valid, input) == "" && Fallback(input) == "{}"
  {
  }

  lemma NothingToClean(t: string)
    requires t != "" && Trimmed(t) && Top(t) != ',' && Top(t) != ':'
    ensures Uncommaed(t) == t && !CutsKey(t)
  {
    var idx := LastIndex(t, ':');
    if idx >= 0 {
      var rest := t[idx + 1..];
      NotBlank(rest);
    }
  }

  /** A text that ends visibly, in no comma, is not blank up to a comma. */
  lemma NotBlank(rest: string)
    requires rest != "" && !IsSpace(Top(rest)) && Top(rest) != ','
    ensures TrimSpace(rest) != "" && TrimSpace(rest) != ","
  {
    if TrimSpace(rest) == "" || TrimSpace(rest) == "," {
      BlankIsFiller(rest);
    }
  }

  predicate Blank(a: string) {
    forall i :: 0 <= i < |a| ==> IsSpace(a[i])
  }

  /** With a comma behind, the comma is dropped for the first try; only if that does not parse it stays. */
  lemma RepairDropsComma(valid: string -> bool, input: string, t: string, a: string, w: string)
    requires t != "" && Trimmed(t) && Top(t) != ',' && Top(t) != ':' && Mode(t).Outside? && ClosesBest(t, w)
    requires Blank(a) && TrimSpace(input) == t + a + ","
    ensures Repair(valid, input) == if valid(t + a + w) then t + a + w else t + a + "," + w
  {
    var text, tail := t + a + ",", a + ",";
    assert text == t + tail;
    FillerKeepsSkeleton(t, tail);
    NoQuoteKeepsOutside(t, tail);
    TrimIsTrimmed(input);
    TrimPadded(text);
    SameScan(false, t, text, w);
    SameScan(true, t, text, w);
    CommaCleaned(t, a);
    hide ClosesBest, MatchedSoFar, Mode, Skeleton, ScanFrom, TrimSpace, Uncommaed, CutsKey, CutKey, Reverse;
  }

  lemma CommaCleaned(t: string, a: string)
    requires t != "" && Trimmed(t) && Top(t) != ',' && Top(t) != ':' && Blank(a)
    ensures Uncommaed(t + a + ",") == t + a && !CutsKey(t + a)
  {
    var s := t + a;
    assert Pop(s + ",") == s && Top(s + ",") == ',';
    var idx := LastIndex(s, ':');
    if idx >= 0 {
      assert idx < |t| - 1;
      var rest := s[idx + 1..];
      VisibleInside(rest, |t| - 2 - idx);
    }
  }

  lemma VisibleInside(rest: string, k: nat)
    requires k < |rest| && !IsSpace(rest[k]) && rest[k] != ','
    ensures TrimSpace(rest) != "" && TrimSpace(rest) != ","
  {
    if TrimSpace(rest) == "" || TrimSpace(rest) == "," {
      BlankIsFiller(rest);
    }
  }

  lemma SameScan(loose: bool, t: string, text: string, w: string)
    requires ClosesBest(t, w) && Mode(t).Outside? && Mode(text).Outside? && Skeleton(text) == Skeleton(t)
    ensures var s := ScanFrom(loose, START, text); !s.inStr && Reverse(s.stack) == w && Closing(s) == w
  {
    BestIsClosing(loose, t, w);
    ScannersAgree(loose, t);
    assert MatchedSoFar(text);
    ScannersAgree(loose, text);
    hide ClosesBest, MatchedSoFar, Mode, Skeleton, ScanFrom, Reverse;
  }

  /** A text that is complete and has nothing to clean off comes back as it is. */
  lemma CompleteStays(valid: string -> bool, t: string)
    requires t != "" && Trimmed(t) && Top(t) != ',' && Top(t) != ':' && WellNested(t)
    ensures Repair(valid, t) == t
  {
    assert t + "" == t;
    TrimPadded(t);
    hide Repair, TrimSpace;
    RepairCompletes(valid, t, t, "");
  }

  /** Where a key is cut, the closers go behind the text as it is. */
  lemma RepairOfCutKey(valid: string -> bool, input: string, t: string, w: string)
    requires Sound(valid) && TrimSpace(input) == t != "" && ClosesBest(t, w)
    requires Mode(t).Outside? && CutsKey(Uncommaed(t))
    ensures Repair(valid, input) == t + w
  {
    BestIsClosing(false, t, w);
    hide Repair, ClosesBest, Uncommaed, CutsKey, Mode, MatchedSoFar, Fallback;
    CutKeyFallsBack(valid, input);
    FallbackCompletes(input, t, w);
  }

  /** A key is cut exactly off texts of this form, and at this place. */
  lemma CutsAt(s: string) returns (before: string, gap: string, rest: string)
    requires CutsKey(s)
    ensures s == before + "\"" + gap + ":" + rest && NoQuote(gap) && (forall i :: 0 <= i < |rest| ==> rest[i] != ':')
    ensures (TrimSpace(rest) == "" || TrimSpace(rest) == ",") && CutKey(s) == Uncommaed(before)
  {
    var idx := LastIndex(s, ':');
    var keyStart := LastIndex(s[..idx], '"');
    before, gap, rest := s[..keyStart], s[keyStart + 1..idx], s[idx + 1..];
    forall k | 0 <= k < |gap| ensures gap[k] != '"' {
      assert s[..idx][keyStart + 1 + k] == gap[k];
    }
    hide TrimSpace, Uncommaed;
  }

  lemma CutsSuch(s: string, before: string, gap: string, rest: string)
    requires s == before + "\"" + gap + ":" + rest && NoQuote(gap) && (forall i :: 0 <= i < |rest| ==> rest[i] != ':')
    requires TrimSpace(rest) == "" || TrimSpace(rest) == ","
    ensures CutsKey(s) && CutKey(s) == Uncommaed(before)
  {
    hide TrimSpace, Uncommaed;
    var idx, keyStart := |before| + 1 + |gap|, |before|;
    assert s[idx] == ':' && s[idx + 1..] == rest;
    assert forall k :: idx < k < |s| ==> s[k] == rest[k - idx - 1];
    LastIndexIs(s, ':', idx);
    var head := s[..idx];
    assert head == before + "\"" + gap;
    assert forall k :: keyStart < k < |head| ==> head[k] == gap[k - keyStart - 1];
    LastIndexIs(head, '"', keyStart);
    assert s[..keyStart] == before;
  }

  lemma LastIndexIs(s: string, c: char, i: nat)
    requires i < |s| && s[i] == c && forall k :: i < k < |s| ==> s[k] != c
    ensures LastIndex(s, c) == i
  {
  }
}
