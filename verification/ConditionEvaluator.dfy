/** The evaluator of workflow conditions: a recursive string splitter. */
module ConditionEvaluator {

  import opened Options
  import opened Text

  /** Run-time values; Int is the platform integer, Float any other number. */
  datatype Value = Nil | Bool(b: bool) | Int(i: int) | Float(r: real) | Str(s: string) | Other(id: int)

  datatype EvalError =
    | EmptyExpression
    | FieldError(path: string)
    | NilOrdering
    | Crash        // a slice out of range
    | Endless      // recursion on an unchanged text

  datatype Outcome = Ok(value: bool) | Err(error: EvalError)

  datatype Resolved = Resolved(value: Value) | Unresolved(error: EvalError)

  /** The data of an evaluation, and the library functions it relies on. */
  datatype Env = Env(
    field: string -> Option<Value>,        // resolution of a field path in the data
    parseFloat: string -> Option<real>,
    format: Value -> string)               // default formatting of a value

  function Negate(o: Outcome): Outcome {
    match o
    case Ok(b) => Ok(!b)
    case Err(e) => Err(e)
  }

  // ----- Values -----

  predicate Quoted(s: string, quote: char) {
    s != [] && s[0] == quote && s[|s| - 1] == quote
  }

  function ResolveValue(env: Env, expr: string): Resolved {
    var t := TrimSpace(expr);
    if Quoted(t, '\'') || Quoted(t, '"') then
      if |t| < 2 then Unresolved(Crash) else Resolved(Str(t[1..|t| - 1]))
    else
      match env.parseFloat(t)
      case Some(r) => Resolved(Float(r))
      case None =>
        var lower := ToLower(t);
        if lower == "true" then Resolved(Bool(true))
        else if lower == "false" then Resolved(Bool(false))
        else if lower == "null" || lower == "nil" then Resolved(Nil)
        else
          match env.field(t)
          case Some(v) => Resolved(v)
          case None => Unresolved(FieldError(t))
  }

  function ToFloat(env: Env, v: Value): Option<real> {
    match v
    case Int(i) => Some(i as real)
    case Float(r) => Some(r)
    case Str(s) => env.parseFloat(s)
    case _ => None
  }

  function Less(a: string, b: string): bool {
    if b == [] then false
    else if a == [] then true
    else if a[0] != b[0] then a[0] < b[0]
    else Less(a[1..], b[1..])
  }

  const OPERATORS: seq<string> := ["==", "!=", ">=", "<=", ">", "<"]

  function CompareValues(env: Env, left: Value, right: Value, op: string): Outcome {
    if left == Nil || right == Nil then
      if op == "==" then Ok(left == right)
      else if op == "!=" then Ok(left != right)
      else Err(NilOrdering)
    else
      match (ToFloat(env, left), ToFloat(env, right))
      case (Some(x), Some(y)) =>
        Ok(if op == "==" then x == y else if op == "!=" then x != y else if op == ">" then x > y
           else if op == "<" then x < y else if op == ">=" then x >= y else x <= y)
      case _ =>
        var x, y := env.format(left), env.format(right);
        Ok(if op == "==" then x == y else if op == "!=" then x != y else if op == ">" then Less(y, x)
           else if op == "<" then Less(x, y) else if op == ">=" then !Less(x, y) else !Less(y, x))
  }

  /** Truth of a value. Only the platform integer zero is a false number: for every other numeric
      type the code compares a dynamically typed value with the integer 0, which never equals it. */
  function ToBool(v: Value): bool {
    match v
    case Nil => false
    case Bool(b) => b
    case Int(i) => i != 0
    case Float(_) => true
    case Str(s) => var lower := ToLower(s); lower == "true" || lower == "yes" || lower == "1"
    case Other(_) => true
  }

  function TruthOf(env: Env, text: string): Outcome {
    match ResolveValue(env, text)
    case Resolved(v) => Ok(ToBool(v))
    case Unresolved(e) => Err(e)
  }

  function CompareTexts(env: Env, left: string, right: string, op: string): Outcome {
    match ResolveValue(env, left)
    case Unresolved(e) => Err(e)
    case Resolved(l) =>
      match ResolveValue(env, right)
      case Unresolved(e) => Err(e)
      case Resolved(r) => CompareValues(env, l, r, op)
  }

  // ----- Splitting -----

  /** The logical operator spellings in the order they are looked for: four of and, four of or. */
  const PATTERNS: seq<string> := [" and ", " AND ", " && ", "&&", " or ", " OR ", " || ", "||"]

  function Evaluate(env: Env, expr: string): Outcome
    decreases |expr|, 2
  {
    if expr == "" then Err(EmptyExpression)
    else
      var t := TrimSpace(expr);
      var lower := ToLower(t);
      if lower == "true" then Ok(true)
      else if lower == "false" then Ok(false)
      else
        match EvaluateLogical(env, t)
        case Some(o) => o
        case None =>
          match EvaluateComparison(env, t, 0)
          case Some(o) => o
          case None => TruthOf(env, t)
  }

  function EvaluateLogical(env: Env, t: string): Option<Outcome>
    decreases |t|, 1
  {
    if HasPrefix(ToLower(t), "not ") then
      var sub := TrimPrefix(TrimPrefix(t, "not "), "NOT ");
      if sub == t then Some(Err(Endless)) else Some(Negate(Evaluate(env, sub)))
    else if HasPrefix(t, "!") then
      Some(Negate(Evaluate(env, t[1..])))
    else
      SplitLogical(env, t, 0)
  }

  /** Splits at the first occurrence of the first spelling found, from the k-th on. */
  function SplitLogical(env: Env, t: string, k: nat): Option<Outcome>
    decreases |t|, 0, |PATTERNS| - k
  {
    if k >= |PATTERNS| then None
    else
      var idx := Index(t, PATTERNS[k]);
      if idx > 0 then
        var left := TrimSpace(t[..idx]);
        var right := TrimSpace(t[idx + |PATTERNS[k]|..]);
        Some(
          match Evaluate(env, left)
          case Err(e) => Err(e)
          case Ok(l) => if l == (k < 4) then Evaluate(env, right) else Ok(l))
      else SplitLogical(env, t, k + 1)
  }

  function EvaluateComparison(env: Env, t: string, k: nat): Option<Outcome>
    decreases |OPERATORS| - k
  {
    if k >= |OPERATORS| then None
    else
      var idx := Index(t, OPERATORS[k]);
      if idx > 0 then
        Some(CompareTexts(env, TrimSpace(t[..idx]), TrimSpace(t[idx + |OPERATORS[k]|..]), OPERATORS[k]))
      else EvaluateComparison(env, t, k + 1)
  }
}
