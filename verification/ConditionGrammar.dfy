/** What the condition evaluator accepts, as syntax trees: printing a tree and evaluating the text
    gives the tree's meaning. */
module ConditionGrammar {

  import opened Options
  import opened Text
  import opened ConditionEvaluator

  datatype Mark = Bang | LowerNot | UpperNot

  /** A binary operator is named by its position in the order the evaluator looks for them; a
      smaller level binds less tightly. Comparisons are named by their position in OPERATORS. */
  datatype Cond =
    | Leaf(text: string)
    | Compare(op: nat, spaced: bool, left: string, right: string)
    | Not(mark: Mark, arg: Cond)
    | Binary(level: nat, first: Cond, second: Cond)

  function MarkText(m: Mark): string {
    match m
    case Bang => "!"
    case LowerNot => "not "
    case UpperNot => "NOT "
  }

  function OpText(op: nat, spaced: bool): string
    requires op < |OPERATORS|
  {
    if spaced then " " + OPERATORS[op] + " " else OPERATORS[op]
  }

  function Print(c: Cond): string
    requires Printable(c)
  {
    match c
    case Leaf(text) => text
    case Compare(op, spaced, left, right) => left + OpText(op, spaced) + right
    case Not(m, arg) => MarkText(m) + Print(arg)
    case Binary(level, a, b) => Print(a) + PATTERNS[level] + Print(b)
  }

  predicate Printable(c: Cond) {
    match c
    case Leaf(_) => true
    case Compare(op, _, _, _) => op < |OPERATORS|
    case Not(_, arg) => Printable(arg)
    case Binary(level, a, b) => level < |PATTERNS| && Printable(a) && Printable(b)
  }

  function LeafMeaning(env: Env, text: string): Outcome {
    if ToLower(text) == "true" then Ok(true)
    else if ToLower(text) == "false" then Ok(false)
    else TruthOf(env, text)
  }

  function Meaning(env: Env, c: Cond): Outcome
    requires Printable(c)
  {
    match c
    case Leaf(text) => LeafMeaning(env, text)
    case Compare(op, _, left, right) => CompareTexts(env, left, right, OPERATORS[op])
    case Not(_, arg) => Negate(Meaning(env, arg))
    case Binary(level, a, b) =>
      match Meaning(env, a)
      case Err(e) => Err(e)
      case Ok(l) => if l == (level < 4) then Meaning(env, b) else Ok(l)
  }

  // ----- Well-formed trees -----

  predicate Comparator(c: char) {
    c == '=' || c == '<' || c == '>'
  }

  predicate Connective(c: char) {
    c == '&' || c == '|'
  }

  function Padded(s: string): string {
    " " + s + " "
  }

  /** Text without operator text: it would not be split, and cannot form an operator with what
      stands beside it. */
  ghost predicate Plain(s: string) {
    && s != [] && Trimmed(s)
    && (forall i :: 0 <= i < |s| ==> !Comparator(s[i]))
    && !Connective(s[0]) && !Connective(s[|s| - 1])
    && forall k :: 0 <= k < |PATTERNS| ==> Avoids(Padded(s), PATTERNS[k])
  }

  predicate StartsNot(s: string) {
    |s| >= 4 && Lower(s[0]) == 'n' && Lower(s[1]) == 'o' && Lower(s[2]) == 't' && s[3] == ' '
  }

  lemma StartsNotIff(s: string)
    ensures StartsNot(s) <==> HasPrefix(ToLower(s), "not ")
  {
    if StartsNot(s) {
      assert ToLower(s)[..4] == "not ";
    } else if |s| >= 4 {
      var l := ToLower(s);
      assert l[0] == Lower(s[0]) && l[1] == Lower(s[1]) && l[2] == Lower(s[2]) && l[3] == Lower(s[3]);
    }
  }

  /** Text that does not begin with a negation. */
  predicate Unmarked(s: string) {
    s != [] && s[0] != '!' && !StartsNot(s + " ")
  }

  /** Trees that need no parentheses. Every operator has at least the given level; the left operand
      of an operator binds tighter than it and does not begin with a negation, which would scope over
      everything to its right; and NOT does not follow the spelling "not ". */
  ghost predicate WellFormed(c: Cond, least: nat) {
    match c
    case Leaf(text) => Plain(text) && Unmarked(text)
    case Compare(op, _, left, right) => op < |OPERATORS| && Plain(left) && Unmarked(left) && Plain(right)
    case Not(m, arg) => WellFormed(arg, least) && !(m.LowerNot? && arg.Not? && arg.mark.UpperNot?)
    case Binary(level, a, b) =>
      least <= level < |PATTERNS| && WellFormed(a, level + 1) && LeadsPlain(a) && WellFormed(b, level)
  }

  /** The leftmost operand carries no negation. */
  predicate LeadsPlain(c: Cond) {
    match c
    case Leaf(_) => true
    case Compare(_, _, _, _) => true
    case Not(_, _) => false
    case Binary(_, a, _) => LeadsPlain(a)
  }

  lemma {:induction false} WellFormedPrintable(c: Cond, least: nat)
    requires WellFormed(c, least)
    ensures Printable(c)
  {
    match c
    case Leaf(_) =>
    case Compare(_, _, _, _) =>
    case Not(_, arg) => WellFormedPrintable(arg, least);
    case Binary(level, a, b) => WellFormedPrintable(a, level + 1); WellFormedPrintable(b, level);
  }

  /** The ends of printed text: no white space, and no half of a connective. */
  predicate CleanEnds(s: string) {
    s != [] && Trimmed(s) && !Connective(s[0]) && !Connective(s[|s| - 1])
  }

  lemma {:induction false} PrintEnds(c: Cond, least: nat)
    requires WellFormed(c, least) && Printable(c)
    ensures CleanEnds(Print(c))
  {
    match c
    case Leaf(_) =>
    case Compare(_, _, _, _) =>
    case Not(_, arg) => PrintEnds(arg, least);
    case Binary(level, a, b) => PrintEnds(a, level + 1); PrintEnds(b, level);
  }

  // ----- Where an operator can occur in x + o + y -----

  predicate SpacedWord(p: string) {
    && |p| >= 3 && p[0] == ' ' && p[|p| - 1] == ' '
    && forall i :: 0 < i < |p| - 1 ==> p[i] != ' '
  }

  predicate Disjoint(p: string, o: string) {
    forall i, j :: 0 <= i < |p| && 0 <= j < |o| ==> p[i] != o[j]
  }

  /** The text sub stands in s from position `from` on. */
  predicate StandsAt(s: string, sub: string, from: nat) {
    from + |sub| <= |s| && forall q :: 0 <= q < |sub| ==> s[from + q] == sub[q]
  }

  lemma OccursShift(s: string, p: string, i: nat, from: nat, sub: string)
    requires OccursAt(s, p, i) && from <= i && i + |p| <= from + |sub| && StandsAt(s, sub, from)
    ensures OccursAt(sub, p, i - from)
  {
    forall q | 0 <= q < |p| ensures sub[i - from + q] == p[q] {
      assert s[i + q] == p[q] && s[from + (i - from + q)] == sub[i - from + q];
    }
  }

  lemma Mismatch(s: string, p: string, i: nat, q: nat)
    requires q < |p| && (i + q < |s| ==> s[i + q] != p[q])
    ensures !OccursAt(s, p, i)
  {
  }

  lemma DifferAt(p: string, o: string) returns (q: nat)
    requires |p| == |o| && p != o
    ensures q < |p| && p[q] != o[q]
  {
    q := 0;
    while q < |p| && p[q] == o[q]
      invariant q <= |p| && p[..q] == o[..q]
    {
      q := q + 1;
    }
    assert p[..|p|] == p && o[..|o|] == o;
  }

  /** An occurrence in x, or in its padding, is one in the padded x. */
  lemma PaddedLeft(x: string, t: string, p: string, i: nat)
    requires OccursAt(t, p, i) && i + |p| <= |x| + 1 && StandsAt(t, " " + x, 0)
    ensures OccursAt(Padded(x), p, i)
  {
    OccursShift(t, p, i, 0, " " + x);
    forall q | 0 <= q < |p| ensures Padded(x)[i + q] == p[q] {
      assert (" " + x)[i + q] == p[q];
    }
  }

  lemma PaddedRight(y: string, t: string, p: string, i: nat, from: nat)
    requires OccursAt(t, p, i) && from <= i && i + |p| <= from + |y| + 1 && StandsAt(t, y + " ", from)
    ensures OccursAt(Padded(y), p, i - from + 1)
  {
    OccursShift(t, p, i, from, y + " ");
    forall q | 0 <= q < |p| ensures Padded(y)[i - from + 1 + q] == p[q] {
      assert (y + " ")[i - from + q] == p[q];
    }
  }

  /** Nothing to the left of the operator, within the padded left operand. */
  lemma NotLeft(x: string, t: string, p: string, i: nat)
    requires Avoids(Padded(x), p) && i + |p| <= |x| + 1 && StandsAt(t, " " + x, 0)
    ensures !OccursAt(t, p, i)
  {
    if OccursAt(t, p, i) { PaddedLeft(x, t, p, i); }
  }

  lemma NotRight(y: string, t: string, p: string, i: nat, from: nat)
    requires Avoids(Padded(y), p) && from <= i && |t| == from + |y| + 1 && StandsAt(t, y + " ", from)
    ensures !OccursAt(t, p, i)
  {
    if OccursAt(t, p, i) { PaddedRight(y, t, p, i, from); }
  }

  /** The parts of a text around an operator. */
  lemma Around(x: string, o: string, y: string)
    ensures var t := Padded(x + o + y);
      && StandsAt(t, " " + x, 0)
      && StandsAt(t, o, |x| + 1)
      && StandsAt(t, y + " ", |x| + 1 + |o|)
      && |t| == |x| + |o| + |y| + 2
  {
    var t := Padded(x + o + y);
    assert t == " " + x + o + (y + " ");
  }

  /** The spaces of an operator pad the operands. */
  lemma SpacedAround(x: string, o: string, y: string)
    requires SpacedWord(o)
    ensures var t := Padded(x + o + y); StandsAt(t, Padded(x), 0) && StandsAt(t, Padded(y), |x| + |o|)
  {
    var t, w := Padded(x + o + y), o[1..|o| - 1];
    assert o == " " + w + " ";
    assert t == Padded(x) + w + Padded(y);
  }

  /** With an operator in spaces, occurrences may share its spaces with the operands' padding. */
  lemma SpacedSides(x: string, o: string, y: string, p: string, i: nat)
    requires SpacedWord(o) && p != [] && Avoids(Padded(x), p) && Avoids(Padded(y), p)
    requires i + |p| <= |x| + 2 || i >= |x| + |o|
    ensures !OccursAt(Padded(x + o + y), p, i)
  {
    hide StandsAt;
    var t := Padded(x + o + y);
    SpacedAround(x, o, y);
    if OccursAt(t, p, i) {
      if i + |p| <= |x| + 2 {
        OccursShift(t, p, i, 0, Padded(x));
      } else {
        OccursShift(t, p, i, |x| + |o|, Padded(y));
      }
    }
  }

  /** An operator in spaces has no other such operator inside or overlapping it by more than a space. */
  lemma SpacedClash(t: string, o: string, p: string, i: nat, a: nat)
    requires SpacedWord(o) && SpacedWord(p) && p != o && StandsAt(t, o, a)
    requires a + 1 < i + |p| && i < a + |o| - 1
    ensures !OccursAt(t, p, i)
  {
    if i < a {
      assert t[a + 0] == o[0];
      Mismatch(t, p, i, a - i);
    } else if i > a {
      assert t[a + (i - a)] == o[i - a];
      Mismatch(t, p, i, 0);
    } else if |p| < |o| {
      assert t[a + (|p| - 1)] == o[|p| - 1];
      Mismatch(t, p, i, |p| - 1);
    } else if |p| > |o| {
      assert t[a + (|o| - 1)] == o[|o| - 1];
      Mismatch(t, p, i, |o| - 1);
    } else {
      var q := DifferAt(p, o);
      assert t[a + q] == o[q];
      Mismatch(t, p, i, q);
    }
  }

  /** Between two operands, an operator in spaces adds no occurrence of another operator in spaces. */
  lemma SpacedBySpaced(x: string, o: string, y: string, p: string)
    requires SpacedWord(o) && SpacedWord(p) && p != o
    requires Avoids(Padded(x), p) && Avoids(Padded(y), p)
    ensures Avoids(Padded(x + o + y), p)
  {
    hide StandsAt, OccursAt, Padded;
    var t := Padded(x + o + y);
    Around(x, o, y);
    forall i | 0 <= i <= |t| ensures !OccursAt(t, p, i) {
      if i + |p| <= |x| + 2 || i >= |x| + |o| {
        SpacedSides(x, o, y, p, i);
      } else {
        SpacedClash(t, o, p, i, |x| + 1);
      }
    }
  }

  /** An operator sharing no character with another adds no occurrence of it. */
  lemma ByDisjoint(x: string, o: string, y: string, p: string)
    requires o != [] && p != [] && Disjoint(p, o)
    requires Avoids(Padded(x), p) && Avoids(Padded(y), p)
    ensures Avoids(Padded(x + o + y), p)
  {
    var t := Padded(x + o + y);
    var a, b := |x| + 1, |x| + 1 + |o|;
    Around(x, o, y);
    forall i | 0 <= i <= |t| ensures !OccursAt(t, p, i) {
      if i + |p| <= a {
        NotLeft(x, t, p, i);
      } else if i >= b {
        NotRight(y, t, p, i, b);
      } else {
        var q := if i < a then a else i;
        assert t[a + (q - a)] == o[q - a];
        Mismatch(t, p, i, q - i);
      }
    }
  }

  /** A doubled connective between clean operands is not one in spaces. */
  lemma SpacedByItsCore(x: string, c: char, y: string)
    requires Connective(c) && CleanEnds(x) && CleanEnds(y)
    requires Avoids(Padded(x), [' ', c, c, ' ']) && Avoids(Padded(y), [' ', c, c, ' '])
    ensures Avoids(Padded(x + [c, c] + y), [' ', c, c, ' '])
  {
    var p, o := [' ', c, c, ' '], [c, c];
    var t := Padded(x + o + y);
    var a, b := |x| + 1, |x| + 3;
    Around(x, o, y);
    assert t[a + 0] == c && t[a + 1] == c;
    assert t[0 + |x|] == (" " + x)[|x|];
    forall i | 0 <= i <= |t| ensures !OccursAt(t, p, i) {
      if i + |p| <= a {
        NotLeft(x, t, p, i);
      } else if i >= b {
        NotRight(y, t, p, i, b);
      } else if i >= a {
        Mismatch(t, p, i, 0);
      } else if i == a - 3 {
        Mismatch(t, p, i, 3);
      } else {
        Mismatch(t, p, i, a - 1 - i);
      }
    }
  }

  // ----- Operators absent from printed trees -----

  /** The k-th pattern does not arise at an operator that comes later in the order. */
  lemma LaterOperatorAdds(x: string, level: nat, y: string, k: nat)
    requires k < level < |PATTERNS| && CleanEnds(x) && CleanEnds(y)
    requires Avoids(Padded(x), PATTERNS[k]) && Avoids(Padded(y), PATTERNS[k])
    ensures Avoids(Padded(x + PATTERNS[level] + y), PATTERNS[k])
  {
    var p, o := PATTERNS[k], PATTERNS[level];
    if k == 2 && level == 3 {
      SpacedByItsCore(x, '&', y);
    } else if k == 6 && level == 7 {
      SpacedByItsCore(x, '|', y);
    } else if level == 3 || level == 7 || k == 3 {
      ByDisjoint(x, o, y, p);
    } else {
      assert p[1] != o[1];
      SpacedBySpaced(x, o, y, p);
    }
  }

  lemma ComparisonAdds(x: string, op: nat, spaced: bool, y: string, k: nat)
    requires k < |PATTERNS| && op < |OPERATORS|
    requires Avoids(Padded(x), PATTERNS[k]) && Avoids(Padded(y), PATTERNS[k])
    ensures Avoids(Padded(x + OpText(op, spaced) + y), PATTERNS[k])
  {
    var p, o := PATTERNS[k], OpText(op, spaced);
    if !spaced || k == 3 || k == 7 {
      ByDisjoint(x, o, y, p);
    } else {
      assert p[1] != o[1];
      SpacedBySpaced(x, o, y, p);
    }
  }

  lemma MarkAdds(m: Mark, y: string, k: nat)
    requires k < |PATTERNS| && Avoids(Padded(y), PATTERNS[k])
    ensures Avoids(Padded(MarkText(m) + y), PATTERNS[k])
  {
    var p, o := PATTERNS[k], MarkText(m);
    var t := Padded(o + y);
    assert t == " " + o + y + " ";
    forall i | 0 <= i <= |t| ensures !OccursAt(t, p, i) {
      if m.Bang? && i >= 2 {
        NotRight(y, t, p, i, 2);
      } else if m.Bang? {
        Mismatch(t, p, i, 1 - i);
      } else if i < 4 {
        assert t[0] == ' ' && t[1] == o[0] && t[2] == o[1] && t[3] == o[2];
        Mismatch(t, p, i, if p[0] == ' ' && i == 0 then 1 else 0);
      } else if OccursAt(t, p, i) {
        assert t == (" " + o[..3]) + Padded(y);
        OccursShift(t, p, i, 4, Padded(y));
      }
    }
  }

  /** No operator below the least level of a tree can be found in its text. */
  lemma {:induction false} LowerLevelsAbsent(c: Cond, least: nat, k: nat)
    requires WellFormed(c, least) && Printable(c) && k < least && k < |PATTERNS|
    ensures Avoids(Padded(Print(c)), PATTERNS[k])
  {
    match c
    case Leaf(_) =>
    case Compare(op, spaced, left, right) => ComparisonAdds(left, op, spaced, right, k);
    case Not(m, arg) =>
      LowerLevelsAbsent(arg, least, k);
      MarkAdds(m, Print(arg), k);
    case Binary(level, a, b) =>
      LowerLevelsAbsent(a, level + 1, k);
      LowerLevelsAbsent(b, level, k);
      PrintEnds(a, level + 1);
      PrintEnds(b, level);
      LaterOperatorAdds(Print(a), level, Print(b), k);
  }

  // ----- Operators found where they were printed -----

  lemma AvoidsUnpadded(s: string, p: string)
    requires Avoids(Padded(s), p)
    ensures Avoids(s, p)
  {
    forall i | 0 <= i <= |s| ensures !OccursAt(s, p, i) {
      if OccursAt(s, p, i) { PaddedRight(s, s + " ", p, i, 0); }
    }
  }

  /** The first occurrence of a logical operator is the one it was printed at. */
  lemma FoundWherePrinted(x: string, level: nat, y: string)
    requires level < |PATTERNS| && CleanEnds(x) && Avoids(Padded(x), PATTERNS[level])
    ensures Index(x + PATTERNS[level] + y, PATTERNS[level]) == |x|
  {
    var o := PATTERNS[level];
    var t := x + o + y;
    AvoidsUnpadded(x, o);
    forall i | 0 <= i < |x| ensures !OccursAt(t, o, i) {
      if i + |o| <= |x| {
        if OccursAt(t, o, i) { OccursShift(t, o, i, 0, x); }
      } else if o[0] == ' ' && i + |o| == |x| + 1 {
        if OccursAt(t, o, i) { PaddedRight(x, t, o, i, 0); }
      } else {
        Mismatch(t, o, i, if o[0] == ' ' then |x| - i else |x| - 1 - i);
      }
    }
    FirstIndex(t, o, |x|);
  }

  /** The only comparator characters of a printed comparison are those of its operator. */
  lemma ComparatorsAt(left: string, op: nat, spaced: bool, right: string)
    requires op < |OPERATORS| && Plain(left) && Plain(right)
    ensures var t := left + OpText(op, spaced) + right; var a := |left| + if spaced then 1 else 0;
      && StandsAt(t, OPERATORS[op], a)
      && forall q :: 0 <= q < |t| && Comparator(t[q]) ==> a <= q < a + |OPERATORS[op]|
  {
    hide Avoids, Padded, Trimmed;
  }

  /** Operators that are looked for earlier do not occur. */
  lemma EarlierAbsent(t: string, op: nat, a: nat, k: nat)
    requires k < op < |OPERATORS| && StandsAt(t, OPERATORS[op], a)
    requires forall q :: 0 <= q < |t| && Comparator(t[q]) ==> a <= q < a + |OPERATORS[op]|
    ensures Index(t, OPERATORS[k]) == -1
  {
    hide Index;
    var o, p := OPERATORS[op], OPERATORS[k];
    assert t[a + 0] == o[0];
    forall i | 0 <= i <= |t| ensures !OccursAt(t, p, i) {
      if i == a && |p| == |o| == 2 {
        Mismatch(t, p, i, 0);
      } else {
        Mismatch(t, p, i, |p| - 1);
      }
    }
    NoIndex(t, p);
  }

  lemma FoundHere(t: string, op: nat, a: nat)
    requires op < |OPERATORS| && StandsAt(t, OPERATORS[op], a)
    requires forall q :: 0 <= q < |t| && Comparator(t[q]) ==> a <= q < a + |OPERATORS[op]|
    ensures Index(t, OPERATORS[op]) == a
  {
    hide Index;
    var o := OPERATORS[op];
    assert t[a + 0] == o[0];
    assert op != 1 ==> Comparator(o[0]);
    assert op == 1 ==> o[0] == '!' && o[1] == '=';
    forall i | 0 <= i < a ensures !OccursAt(t, o, i) {
      Mismatch(t, o, i, if op == 1 then 1 else 0);
    }
    FirstIndex(t, o, a);
  }

  lemma ComparisonFound(left: string, op: nat, spaced: bool, right: string, k: nat)
    requires k <= op < |OPERATORS| && Plain(left) && Plain(right)
    ensures var t := left + OpText(op, spaced) + right;
      Index(t, OPERATORS[k]) == if k < op then -1 else |left| + if spaced then 1 else 0
  {
    hide *;
    ComparatorsAt(left, op, spaced, right);
    var t, a := left + OpText(op, spaced) + right, |left| + if spaced then 1 else 0;
    if k < op {
      EarlierAbsent(t, op, a, k);
    } else {
      FoundHere(t, op, a);
    }
  }

  // ----- Prefixes and literals -----

  lemma UnmarkedExtends(text: string, rest: string)
    requires Unmarked(text) && rest != []
    requires rest[0] == ' ' || Connective(rest[0]) || Comparator(rest[0]) || rest[0] == '!'
    ensures Unmarked(text + rest)
  {
    assert (text + rest + " ")[|text|] == rest[0];
  }

  lemma {:induction false} LeadUnmarked(c: Cond, least: nat)
    requires WellFormed(c, least) && Printable(c) && LeadsPlain(c)
    ensures Unmarked(Print(c))
  {
    hide Plain, Unmarked, Avoids, Padded;
    match c
    case Leaf(_) =>
    case Compare(op, spaced, left, right) =>
      UnmarkedExtends(left, OpText(op, spaced) + right);
      assert left + (OpText(op, spaced) + right) == Print(c);
    case Not(_, _) =>
    case Binary(level, a, b) =>
      LeadUnmarked(a, level + 1);
      UnmarkedExtends(Print(a), PATTERNS[level] + Print(b));
      assert Print(a) + (PATTERNS[level] + Print(b)) == Print(c);
  }

  lemma UnmarkedNoPrefix(s: string)
    requires Unmarked(s)
    ensures !HasPrefix(ToLower(s), "not ") && !HasPrefix(s, "!") && !HasPrefix(s, "NOT ")
  {
    StartsNotIff(s);
  }

  lemma NotLiteral(s: string, q: nat)
    requires q < |s| && (s[q] == ' ' || Connective(s[q]) || Comparator(s[q]) || s[q] == '!')
    ensures ToLower(s) != "true" && ToLower(s) != "false"
  {
    assert ToLower(s)[q] == s[q];
  }

  // ----- The searches -----

  lemma {:induction false} SplitSkips(env: Env, t: string, k: nat, level: nat)
    requires k <= level <= |PATTERNS| && forall j :: k <= j < level ==> Index(t, PATTERNS[j]) <= 0
    ensures SplitLogical(env, t, k) == SplitLogical(env, t, level)
    decreases level - k
  {
    if k < level {
      SplitSkips(env, t, k + 1, level);
    }
  }

  lemma {:induction false} ComparisonSkips(env: Env, t: string, k: nat, op: nat)
    requires k <= op <= |OPERATORS| && forall j :: k <= j < op ==> Index(t, OPERATORS[j]) <= 0
    ensures EvaluateComparison(env, t, k) == EvaluateComparison(env, t, op)
    decreases op - k
  {
    hide Index, CompareTexts;
    if k < op {
      ComparisonSkips(env, t, k + 1, op);
    }
  }

  lemma NoLogical(env: Env, t: string)
    requires Unmarked(t) && forall k :: 0 <= k < |PATTERNS| ==> Avoids(Padded(t), PATTERNS[k])
    ensures EvaluateLogical(env, t) == None
  {
    UnmarkedNoPrefix(t);
    forall k | 0 <= k < |PATTERNS| ensures Index(t, PATTERNS[k]) == -1 {
      AvoidsUnpadded(t, PATTERNS[k]);
      NoIndex(t, PATTERNS[k]);
    }
    SplitSkips(env, t, 0, |PATTERNS|);
  }

  lemma NoComparison(env: Env, t: string)
    requires forall i :: 0 <= i < |t| ==> !Comparator(t[i])
    ensures EvaluateComparison(env, t, 0) == None
  {
    forall k | 0 <= k < |OPERATORS| ensures Index(t, OPERATORS[k]) == -1 {
      var p := OPERATORS[k];
      forall i | 0 <= i <= |t| ensures !OccursAt(t, p, i) {
        Mismatch(t, p, i, |p| - 1);
      }
      NoIndex(t, p);
    }
    ComparisonSkips(env, t, 0, |OPERATORS|);
  }

  lemma EvaluateLeaf(env: Env, text: string, s: string)
    requires Plain(text) && Unmarked(text) && TrimSpace(s) == text && s != ""
    ensures Evaluate(env, s) == LeafMeaning(env, text)
  {
    NoLogical(env, text);
    NoComparison(env, text);
  }

  lemma PlainTrimmed(s: string)
    requires Plain(s)
    ensures Trimmed(s) && s != ""
  {
  }

  lemma SplitsAtOperator(env: Env, t: string, op: nat, idx: nat)
    requires op < |OPERATORS| && Index(t, OPERATORS[op]) == idx > 0 && idx + |OPERATORS[op]| <= |t|
    ensures EvaluateComparison(env, t, op)
         == Some(CompareTexts(env, TrimSpace(t[..idx]), TrimSpace(t[idx + |OPERATORS[op]|..]), OPERATORS[op]))
  {
    hide Index, CompareTexts, TrimSpace;
  }

  lemma CutTwice(x: string, o: string, y: string)
    ensures var t := x + o + y; t[..|x|] == x && t[|x| + |o|..] == y
  {
  }

  lemma Regroup(x: string, o: string, y: string)
    ensures x + (" " + o + " ") + y == (x + " ") + o + (" " + y)
  {
  }

  lemma SidesTrimmed(left: string, op: nat, spaced: bool, right: string)
    requires op < |OPERATORS| && Plain(left) && Plain(right)
    ensures var t, idx := left + OpText(op, spaced) + right, |left| + if spaced then 1 else 0;
      && idx + |OPERATORS[op]| <= |t|
      && TrimSpace(t[..idx]) == left && TrimSpace(t[idx + |OPERATORS[op]|..]) == right
  {
    PlainTrimmed(left);
    PlainTrimmed(right);
    TrimPadded(left);
    TrimPadded(right);
    hide Plain, TrimSpace, Trimmed;
    var o := OPERATORS[op];
    if spaced {
      Regroup(left, o, right);
      CutTwice(left + " ", o, " " + right);
    } else {
      CutTwice(left, o, right);
    }
  }

  lemma CompareSplits(env: Env, left: string, op: nat, spaced: bool, right: string)
    requires op < |OPERATORS| && Plain(left) && Plain(right)
    ensures EvaluateComparison(env, left + OpText(op, spaced) + right, 0)
         == Some(CompareTexts(env, left, right, OPERATORS[op]))
  {
    assert left != "" by { PlainTrimmed(left); }
    hide *;
    var t := left + OpText(op, spaced) + right;
    var idx := |left| + if spaced then 1 else 0;
    forall k | 0 <= k < op ensures Index(t, OPERATORS[k]) <= 0 {
      ComparisonFound(left, op, spaced, right, k);
    }
    ComparisonSkips(env, t, 0, op);
    ComparisonFound(left, op, spaced, right, op);
    SidesTrimmed(left, op, spaced, right);
    SplitsAtOperator(env, t, op, idx);
  }

  lemma EvaluateCompare(env: Env, left: string, op: nat, spaced: bool, right: string, s: string)
    requires op < |OPERATORS| && Plain(left) && Unmarked(left) && Plain(right)
    requires TrimSpace(s) == left + OpText(op, spaced) + right && s != ""
    ensures Evaluate(env, s) == CompareTexts(env, left, right, OPERATORS[op])
  {
    var t := left + OpText(op, spaced) + right;
    forall k | 0 <= k < |PATTERNS| ensures Avoids(Padded(t), PATTERNS[k]) {
      ComparisonAdds(left, op, spaced, right, k);
    }
    UnmarkedExtends(left, OpText(op, spaced) + right);
    assert left + (OpText(op, spaced) + right) == t;
    NoLogical(env, t);
    CompareSplits(env, left, op, spaced, right);
    assert t[|left|] == OpText(op, spaced)[0];
    NotLiteral(t, |left|);
    hide CompareTexts, EvaluateComparison, EvaluateLogical;
  }

  /** What an operator does with the outcomes of its operands, the second only looked at if needed. */
  function Combine(level: nat, first: Outcome, second: Outcome): Outcome {
    match first
    case Err(e) => Err(e)
    case Ok(l) => if l == (level < 4) then second else Ok(l)
  }

  lemma SplitsHere(env: Env, x: string, level: nat, y: string)
    requires level < |PATTERNS| && CleanEnds(x) && CleanEnds(y) && Avoids(Padded(x), PATTERNS[level])
    ensures SplitLogical(env, x + PATTERNS[level] + y, level)
         == Some(Combine(level, Evaluate(env, x), Evaluate(env, y)))
  {
    var t := x + PATTERNS[level] + y;
    FoundWherePrinted(x, level, y);
    TrimPadded(x);
    TrimPadded(y);
    assert t[..|x|] == x;
    assert t[|x| + |PATTERNS[level]|..] == y;
    hide Evaluate, Index, TrimSpace, CleanEnds, Avoids, Padded;
  }

  lemma BinarySplits(env: Env, c: Cond, least: nat)
    requires c.Binary? && WellFormed(c, least) && Printable(c)
    ensures EvaluateLogical(env, Print(c))
         == Some(Combine(c.level, Evaluate(env, Print(c.first)), Evaluate(env, Print(c.second))))
  {
    hide Evaluate, SplitLogical, Index, Avoids, Unmarked, CleanEnds;
    var Binary(level, a, b) := c;
    var t := Print(c);
    LeadUnmarked(c, least);
    UnmarkedNoPrefix(t);
    forall k | 0 <= k < level ensures Index(t, PATTERNS[k]) == -1 {
      LowerLevelsAbsent(c, level, k);
      AvoidsUnpadded(t, PATTERNS[k]);
      NoIndex(t, PATTERNS[k]);
    }
    SplitSkips(env, t, 0, level);
    LowerLevelsAbsent(a, level + 1, level);
    PrintEnds(a, level + 1);
    PrintEnds(b, level);
    SplitsHere(env, Print(a), level, Print(b));
  }

  lemma NotStrips(env: Env, c: Cond, least: nat)
    requires c.Not? && WellFormed(c, least) && Printable(c)
    ensures EvaluateLogical(env, Print(c)) == Some(Negate(Evaluate(env, Print(c.arg))))
  {
    var m, t, sub := c.mark, Print(c), Print(c.arg);
    assert t[|MarkText(m)|..] == sub && t[..|MarkText(m)|] == MarkText(m);
    StartsNotIff(t);
    assert t[0] == MarkText(m)[0];
    if !m.Bang? {
      assert t[1] == MarkText(m)[1] && t[2] == MarkText(m)[2] && t[3] == MarkText(m)[3];
    }
    if m.LowerNot? {
      assert TrimPrefix(t, "not ") == sub;
      NoUpperNot(c.arg, least);
    }
    hide Evaluate;
  }

  /** Only a tree that starts with the spelling NOT prints text that does. */
  lemma NoUpperNot(c: Cond, least: nat)
    requires WellFormed(c, least) && Printable(c) && !(c.Not? && c.mark.UpperNot?)
    ensures !HasPrefix(Print(c), "NOT ")
  {
    if c.Not? {
      assert Print(c)[0] == MarkText(c.mark)[0];
    } else {
      LeadUnmarked(c, least);
      UnmarkedNoPrefix(Print(c));
    }
  }

  lemma ByLogical(env: Env, s: string, t: string, o: Outcome, q: nat)
    requires s != "" && TrimSpace(s) == t && EvaluateLogical(env, t) == Some(o)
    requires q < |t| && (t[q] == ' ' || Connective(t[q]) || t[q] == '!')
    ensures Evaluate(env, s) == o
  {
    NotLiteral(t, q);
    hide EvaluateLogical;
  }

  lemma PrintTrims(c: Cond, least: nat)
    requires WellFormed(c, least) && Printable(c)
    ensures Print(c) != "" && TrimSpace(Print(c)) == Print(c) && TrimSpace("") == ""
  {
    PrintEnds(c, least);
    TrimPadded(Print(c));
  }

  lemma EvaluateNot(env: Env, c: Cond, least: nat, s: string)
    requires c.Not? && WellFormed(c, least) && Printable(c) && TrimSpace(s) == Print(c)
    requires Evaluate(env, Print(c.arg)) == Meaning(env, c.arg)
    ensures Evaluate(env, s) == Meaning(env, c)
  {
    hide Evaluate, EvaluateLogical, TrimSpace, WellFormed;
    NotStrips(env, c, least);
    PrintTrims(c, least);
    ByLogical(env, s, Print(c), Negate(Evaluate(env, Print(c.arg))), |MarkText(c.mark)| - 1);
  }

  lemma EvaluateBinary(env: Env, c: Cond, least: nat, s: string)
    requires c.Binary? && WellFormed(c, least) && Printable(c) && TrimSpace(s) == Print(c)
    requires Evaluate(env, Print(c.first)) == Meaning(env, c.first)
    requires Evaluate(env, Print(c.second)) == Meaning(env, c.second)
    ensures Evaluate(env, s) == Meaning(env, c)
  {
    hide Evaluate, EvaluateLogical, TrimSpace, WellFormed;
    var Binary(level, a, b) := c;
    BinarySplits(env, c, least);
    PrintTrims(c, least);
    assert Print(c)[|Print(a)|] == PATTERNS[level][0];
    ByLogical(env, s, Print(c), Combine(level, Evaluate(env, Print(a)), Evaluate(env, Print(b))), |Print(a)|);
  }

  /** Evaluating the printed form of a tree, with any white space around it, gives the tree's
      meaning. So the code reads a leading negation as scoping over everything to its right, and
      lets `and` split before `or`, each at its first occurrence. */
  lemma {:induction false} EvaluatePrinted(env: Env, c: Cond, least: nat, s: string)
    requires WellFormed(c, least) && Printable(c) && TrimSpace(s) == Print(c)
    ensures Evaluate(env, s) == Meaning(env, c)
    decreases c
  {
    hide Evaluate, CompareTexts, LeafMeaning, Plain, Unmarked, TrimSpace;
    PrintTrims(c, least);
    assert s != "";
    match c
    case Leaf(text) => EvaluateLeaf(env, text, s);
    case Compare(op, spaced, left, right) => EvaluateCompare(env, left, op, spaced, right, s);
    case Not(_, arg) =>
      PrintTrims(arg, least);
      EvaluatePrinted(env, arg, least, Print(arg));
      EvaluateNot(env, c, least, s);
    case Binary(level, a, b) =>
      PrintTrims(a, level + 1);
      PrintTrims(b, level);
      EvaluatePrinted(env, a, level + 1, Print(a));
      EvaluatePrinted(env, b, level, Print(b));
      EvaluateBinary(env, c, least, s);
  }

  lemma EvaluateWhole(env: Env, c: Cond, least: nat)
    requires WellFormed(c, least) && Printable(c)
    ensures Evaluate(env, Print(c)) == Meaning(env, c)
  {
    hide Evaluate, Meaning;
    PrintTrims(c, least);
    EvaluatePrinted(env, c, least, Print(c));
  }
}
