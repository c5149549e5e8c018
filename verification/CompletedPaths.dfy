/** Paths to the completed fields of partially received JSON. */
module CompletedPaths {

  datatype Json = Null | Bool(b: bool) | Number(r: real) | String(s: string) | Array(items: seq<Json>) | Object(fields: map<string, Json>)

  // ----- Lookup -----

  /** Indexing an object by an absent key, or anything else by any key, gives null. */
  function Lookup(v: Json, path: seq<string>): Json {
    if path == [] then v
    else if v.Object? && path[0] in v.fields then Lookup(v.fields[path[0]], path[1..])
    else Null
  }

  lemma {:induction false} LookupNull(path: seq<string>)
    ensures Lookup(Null, path) == Null
  {
  }

  /** One step of a lookup: a field of an object is where the key leads, whatever other fields there are. */
  lemma LookupField(fields: map<string, Json>, key: string, v: Json, path: seq<string>)
    ensures Lookup(Object(fields[key := v]), [key] + path) == Lookup(v, path)
    ensures key !in fields ==> Lookup(Object(fields), [key] + path) == Null
    ensures !v.Object? ==> Lookup(v, [key] + path) == Null
  {
    assert ([key] + path)[1..] == path;
  }

  /** A value wrapped into objects along a path. */
  function Nest(path: seq<string>, v: Json): Json {
    if path == [] then v else Object(map[path[0] := Nest(path[1..], v)])
  }

  /** The lookup finds what was put at the path, whatever it is. */
  lemma {:induction false} LookupNested(path: seq<string>, v: Json)
    ensures Lookup(Nest(path, v), path) == v
  {
    if path != [] {
      LookupNested(path[1..], v);
    }
  }

  method GetValueAtPath(data: Json, path: seq<string>) returns (value: Json)
    requires data.Object?
    ensures value == if path == [] then Null else Lookup(data, path)
  {
    if |path| == 0 {
      return Null;
    }
    var current := data;
    for i := 0 to |path|
      invariant Lookup(data, path) == Lookup(current, path[i..])
    {
      match current {
        case Object(fields) =>
          LookupNull(path[i..][1..]);
          current := if path[i] in fields then fields[path[i]] else Null;
          assert path[i..][1..] == path[i + 1..];
        case _ =>
          return Null;
      }
    }
    assert path[|path|..] == [];
    return current;
  }

  /** A completed field: a path leading to something other than null or an object. */
  predicate Completed(v: Json, path: seq<string>) {
    path != [] && !Lookup(v, path).Null? && !Lookup(v, path).Object?
  }

  // ----- Slices -----

  /** A slice of strings: a length within a backing array that other slices may share. */
  datatype Slice = Slice(backing: array<string>, length: nat)

  ghost predicate IsSlice(s: Slice) {
    s.length <= s.backing.Length
  }

  ghost function Elements(s: Slice): seq<string>
    requires IsSlice(s)
    reads s.backing
  {
    s.backing[..s.length]
  }

  /** Writes into the backing array when there is room behind the slice, else moves to a larger one. */
  method Append(s: Slice, x: string) returns (t: Slice)
    requires IsSlice(s)
    modifies s.backing
    ensures IsSlice(t) && Elements(t) == old(Elements(s)) + [x]
    ensures Elements(s) == old(Elements(s))
    ensures t.backing == s.backing || fresh(t.backing)
  {
    if s.length < s.backing.Length {
      s.backing[s.length] := x;
      return Slice(s.backing, s.length + 1);
    }
    var spare: int := *;
    spare := if spare < 0 then 0 else spare;
    var larger := new string[s.length + 1 + spare](_ => "");
    forall i | 0 <= i < s.length {
      larger[i] := s.backing[i];
    }
    larger[s.length] := x;
    return Slice(larger, s.length + 1);
  }

  // ----- Extraction -----

  predicate NoDuplicates(paths: seq<seq<string>>) {
    forall i, j :: 0 <= i < j < |paths| ==> paths[i] != paths[j]
  }

  predicate Extends(p: seq<string>, prefix: seq<string>) {
    |p| > |prefix| && p[..|prefix|] == prefix
  }

  /** p, below the prefix, is a completed field of the object under one of the given keys. */
  predicate Listed(data: Json, prefix: seq<string>, keys: set<string>, p: seq<string>) {
    && Extends(p, prefix)
    && p[|prefix|] in keys
    && Completed(data, p[|prefix|..])
  }

  lemma BelowKey(data: Json, prefix: seq<string>, key: string, p: seq<string>)
    requires data.Object? && key in data.fields
    ensures Listed(data, prefix, {key}, p)
       <==> var v := data.fields[key];
            if v.Object? then Listed(v, prefix + [key], v.fields.Keys, p)
            else !v.Null? && p == prefix + [key]
  {
    var v, n := data.fields[key], |prefix|;
    if Extends(p, prefix) && p[n] == key {
      var rel := p[n..];
      assert rel[0] == key && rel[1..] == p[n + 1..];
      assert p[..n + 1] == prefix + [key];
      assert Lookup(data, rel) == Lookup(v, p[n + 1..]);
      if |p| > n + 1 {
        LookupNull(p[n + 2..]);
        assert p[n + 1..][1..] == p[n + 2..];
      } else {
        assert p == prefix + [key] && p[n + 1..] == [];
      }
    }
  }

  /** Lists, each once, exactly the completed fields of the object, every path below the prefix.
      Keys come in any order. Calls for nested objects extend the same backing array, but never
      touch the prefix itself. */
  method ExtractCompletedPaths(data: Json, prefix: Slice) returns (paths: seq<seq<string>>)
    requires data.Object? && IsSlice(prefix)
    modifies prefix.backing
    ensures Elements(prefix) == old(Elements(prefix))
    ensures NoDuplicates(paths)
    ensures forall p :: p in paths <==> Extends(p, Elements(prefix)) && Completed(data, p[prefix.length..])
    decreases data
  {
    ghost var pre := Elements(prefix);
    paths := [];
    var todo := data.fields.Keys;
    while todo != {}
      invariant todo <= data.fields.Keys
      invariant Elements(prefix) == pre
      invariant NoDuplicates(paths)
      invariant forall p :: p in paths <==> Listed(data, pre, data.fields.Keys - todo, p)
      decreases todo
    {
      var key :| key in todo;
      ghost var before, done := paths, data.fields.Keys - todo;
      var here := ExtractKey(data, prefix, key);
      JoinPaths(data, pre, done, key, before, here);
      paths := paths + here;
      todo := todo - {key};
      assert data.fields.Keys - todo == done + {key};
    }
    forall p ensures Listed(data, pre, data.fields.Keys, p) <==> Extends(p, pre) && Completed(data, p[|pre|..]) {
      if Extends(p, pre) && Completed(data, p[|pre|..]) { assert p[|pre|..][0] == p[|pre|]; }
    }
  }

  /** The body of the loop over keys. */
  method ExtractKey(data: Json, prefix: Slice, key: string) returns (here: seq<seq<string>>)
    requires data.Object? && IsSlice(prefix) && key in data.fields
    modifies prefix.backing
    ensures Elements(prefix) == old(Elements(prefix))
    ensures NoDuplicates(here)
    ensures forall p :: p in here <==> Listed(data, Elements(prefix), {key}, p)
    decreases data, 0
  {
    ghost var pre := Elements(prefix);
    var value := data.fields[key];
    var currentPath := Append(prefix, key);
    var pathCopy := currentPath.backing[..currentPath.length];
    forall p
      ensures Listed(data, pre, {key}, p)
         <==> if value.Object? then Listed(value, pre + [key], value.fields.Keys, p)
              else !value.Null? && p == pre + [key]
    {
      BelowKey(data, pre, key, p);
    }
    match value {
      case Object(fields) =>
        here := ExtractCompletedPaths(value, currentPath);
        assert Elements(prefix) == Elements(currentPath)[..prefix.length] by {
          if currentPath.backing == prefix.backing {}
        }
        forall p ensures p in here <==> Listed(value, pre + [key], fields.Keys, p) {
          if Extends(p, pre + [key]) && Completed(value, p[|pre| + 1..]) { assert p[|pre| + 1..][0] == p[|pre| + 1]; }
        }
      case Null => here := [];
      case Array(_) => here := [pathCopy];
      case _ => here := [pathCopy];
    }
  }

  lemma JoinPaths(data: Json, pre: seq<string>, done: set<string>, key: string, a: seq<seq<string>>, b: seq<seq<string>>)
    requires NoDuplicates(a) && NoDuplicates(b) && key !in done
    requires forall p :: p in a <==> Listed(data, pre, done, p)
    requires forall p :: p in b <==> Listed(data, pre, {key}, p)
    ensures NoDuplicates(a + b)
    ensures forall p :: p in a + b <==> Listed(data, pre, done + {key}, p)
  {
    forall i, j | 0 <= i < j < |a + b| ensures (a + b)[i] != (a + b)[j] {
      if i < |a| <= j {
        assert a[i] in a && b[j - |a|] in b;
      }
    }
  }
}
