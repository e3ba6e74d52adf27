/** The option lists of the two dropdowns: every token type, and the values
    seen for the selected type. Both are `Array.from(new Set(...))` over a
    projection of the token list, so they keep each element once, in the
    order in which it is first seen. */
module Dropdowns {
  import opened Model

  /** Position of the first occurrence of x in xs, or |xs| when x is absent. */
  function FirstIndex<T(==)>(xs: seq<T>, x: T): (k: nat)
    ensures k <= |xs|
    ensures k < |xs| <==> x in xs
    ensures k < |xs| ==> xs[k] == x
    ensures forall j :: 0 <= j < k ==> xs[j] != x
  {
    if xs == [] then 0
    else if xs[0] == x then 0
    else 1 + FirstIndex(xs[1..], x)
  }

  predicate NoDuplicates<T(==)>(s: seq<T>)
  {
    forall i, j :: 0 <= i < j < |s| ==> s[i] != s[j]
  }

  /** Appending an element moves no first occurrence, and a new element is
      first seen at the end. */
  lemma FirstIndexAppend<T>(p: seq<T>, x: T, y: T)
    ensures y in p ==> FirstIndex(p + [x], y) == FirstIndex(p, y)
    ensures y !in p && y == x ==> FirstIndex(p + [x], y) == |p|
  {
    var k := FirstIndex(p, y);
    var m := FirstIndex(p + [x], y);
    if y in p {
      assert (p + [x])[k] == y;
      assert m <= k;
      assert p[m] == (p + [x])[m];
    } else if y == x {
      assert (p + [x])[|p|] == y;
      assert m <= |p|;
    }
  }

  /** `Array.from(new Set(xs))`: the elements of xs, each once, in the order
      of their first occurrence. A Set keeps insertion order and ignores an
      element it already holds, so each element of xs, taken left to right,
      is appended only if it is new. */
  function Dedup<T(==)>(xs: seq<T>): (r: seq<T>)
    ensures NoDuplicates(r)
    ensures forall i :: 0 <= i < |r| ==> r[i] in xs
    ensures forall i :: 0 <= i < |xs| ==> xs[i] in r
    decreases |xs|
  {
    if xs == [] then []
    else
      var p := xs[..|xs| - 1];
      var x := xs[|xs| - 1];
      assert xs == p + [x];
      var d := Dedup(p);
      if x in d then d else d + [x]
  }

  /** Dedup lists the elements in the order of their first occurrence. */
  lemma {:induction false} DedupFirstSeen<T>(xs: seq<T>)
    ensures forall i, j :: 0 <= i < j < |Dedup(xs)| ==> FirstIndex(xs, Dedup(xs)[i]) < FirstIndex(xs, Dedup(xs)[j])
    decreases |xs|
  {
    if xs != [] {
      var p := xs[..|xs| - 1];
      var x := xs[|xs| - 1];
      assert xs == p + [x];
      var d := Dedup(p);
      DedupFirstSeen(p);
      forall i | 0 <= i < |d| ensures FirstIndex(xs, d[i]) == FirstIndex(p, d[i]) < |p| {
        FirstIndexAppend(p, x, d[i]);
      }
      if x !in d {
        FirstIndexAppend(p, x, x);
      }
    }
  }

  /** The type of every token, in list order (`tokens.map(t => t.token)`). */
  function TypesOf(tokens: seq<Token>): seq<string>
  {
    seq(|tokens|, i requires 0 <= i < |tokens| => tokens[i].token)
  }

  /** The options of the type dropdown. */
  function TokenTypes(tokens: seq<Token>): seq<string>
  {
    Dedup(TypesOf(tokens))
  }

  /** The types of the token list, each once, ordered by the position of the
      first token of that type. */
  lemma TokenTypesSpec(tokens: seq<Token>)
    ensures NoDuplicates(TokenTypes(tokens))
    ensures forall ty :: ty in TokenTypes(tokens) <==> exists i :: 0 <= i < |tokens| && tokens[i].token == ty
    ensures forall i, j :: 0 <= i < j < |TokenTypes(tokens)| ==>
      FirstIndex(TypesOf(tokens), TokenTypes(tokens)[i]) < FirstIndex(TypesOf(tokens), TokenTypes(tokens)[j])
  {
    var types := TypesOf(tokens);
    var r := TokenTypes(tokens);
    DedupFirstSeen(types);
    forall ty ensures ty in r <==> exists i :: 0 <= i < |tokens| && tokens[i].token == ty {
      if ty in r {
        var k :| 0 <= k < |r| && r[k] == ty;
        var i :| 0 <= i < |types| && types[i] == ty;
        assert tokens[i].token == ty;
      }
      if exists i :: 0 <= i < |tokens| && tokens[i].token == ty {
        var i :| 0 <= i < |tokens| && tokens[i].token == ty;
        assert types[i] == ty;
      }
    }
  }

  /** The values of the tokens of type ty, in list order
      (`tokens.filter(t => t.token === ty).map(t => t.value)`). */
  function ValuesOf(tokens: seq<Token>, ty: string): seq<string>
    decreases |tokens|
  {
    if tokens == [] then []
    else (if tokens[0].token == ty then [tokens[0].value] else []) + ValuesOf(tokens[1..], ty)
  }

  /** A value is listed for ty exactly when some token of type ty carries it. */
  lemma {:induction false} ValuesOfMembers(tokens: seq<Token>, ty: string, v: string)
    ensures v in ValuesOf(tokens, ty) <==> exists i :: 0 <= i < |tokens| && tokens[i].token == ty && tokens[i].value == v
    decreases |tokens|
  {
    if tokens != [] {
      var rest := tokens[1..];
      ValuesOfMembers(rest, ty, v);
      if v in ValuesOf(rest, ty) {
        var i :| 0 <= i < |rest| && rest[i].token == ty && rest[i].value == v;
        assert tokens[i + 1] == rest[i];
      }
      if exists i :: 0 <= i < |tokens| && tokens[i].token == ty && tokens[i].value == v {
        var i :| 0 <= i < |tokens| && tokens[i].token == ty && tokens[i].value == v;
        if i > 0 {
          assert rest[i - 1] == tokens[i];
        }
      }
    }
  }

  /** The (type, value) pair of every token, in list order. */
  function PairsOf(tokens: seq<Token>): (r: seq<(string, string)>)
    ensures |r| == |tokens|
    ensures forall i :: 0 <= i < |tokens| ==> r[i] == (tokens[i].token, tokens[i].value)
    decreases |tokens|
  {
    if tokens == [] then [] else [(tokens[0].token, tokens[0].value)] + PairsOf(tokens[1..])
  }

  /** The first occurrence in a list with a known head. */
  lemma FirstIndexCons<T>(a: T, rest: seq<T>, x: T)
    ensures FirstIndex([a] + rest, x) == if a == x then 0 else 1 + FirstIndex(rest, x)
  {
    assert ([a] + rest)[0] == a && ([a] + rest)[1..] == rest;
  }

  /** Filtering by type keeps the relative order of first occurrences. */
  lemma {:induction false} ValuesOfOrder(tokens: seq<Token>, ty: string, v: string, w: string)
    requires v in ValuesOf(tokens, ty)
    requires FirstIndex(ValuesOf(tokens, ty), v) < FirstIndex(ValuesOf(tokens, ty), w)
    ensures FirstIndex(PairsOf(tokens), (ty, v)) < FirstIndex(PairsOf(tokens), (ty, w))
    decreases |tokens|
  {
    var t := tokens[0];
    var rest := tokens[1..];
    var vs := ValuesOf(rest, ty);
    var head := (t.token, t.value);
    var pairs := PairsOf(rest);
    assert PairsOf(tokens) == [head] + pairs;
    FirstIndexCons(head, pairs, (ty, v));
    FirstIndexCons(head, pairs, (ty, w));
    if t.token == ty {
      assert ValuesOf(tokens, ty) == [t.value] + vs;
      FirstIndexCons(t.value, vs, v);
      FirstIndexCons(t.value, vs, w);
      if v != t.value {
        assert w != t.value;
        assert v in vs;
        ValuesOfOrder(rest, ty, v, w);
      }
    } else {
      assert ValuesOf(tokens, ty) == vs;
      ValuesOfOrder(rest, ty, v, w);
    }
  }

  /** The options of the value dropdown: empty while no type is selected
      (null or ""), otherwise the values of the tokens of the selected type. */
  function ValuesForType(tokens: seq<Token>, sel: Selection): seq<string>
  {
    if Truthy(sel.token) then Dedup(ValuesOf(tokens, sel.token.value)) else []
  }

  /** The value dropdown lists nothing without a selected type; with one, it
      lists each value of a token of that type once, ordered by the first
      token carrying that type and value. */
  lemma ValuesForTypeSpec(tokens: seq<Token>, sel: Selection)
    ensures !Truthy(sel.token) ==> ValuesForType(tokens, sel) == []
    ensures NoDuplicates(ValuesForType(tokens, sel))
    ensures Truthy(sel.token) ==> forall v :: v in ValuesForType(tokens, sel) <==>
      exists i :: 0 <= i < |tokens| && tokens[i].token == sel.token.value && tokens[i].value == v
    ensures Truthy(sel.token) ==> forall i, j :: 0 <= i < j < |ValuesForType(tokens, sel)| ==>
      FirstIndex(PairsOf(tokens), (sel.token.value, ValuesForType(tokens, sel)[i]))
        < FirstIndex(PairsOf(tokens), (sel.token.value, ValuesForType(tokens, sel)[j]))
  {
    if Truthy(sel.token) {
      var ty := sel.token.value;
      var vs := ValuesOf(tokens, ty);
      var r := Dedup(vs);
      DedupFirstSeen(vs);
      forall v ensures v in r <==> exists i :: 0 <= i < |tokens| && tokens[i].token == ty && tokens[i].value == v {
        ValuesOfMembers(tokens, ty, v);
        if v in vs {
          var k :| 0 <= k < |vs| && vs[k] == v;
          assert vs[k] in r;
        }
      }
      forall i, j | 0 <= i < j < |r|
        ensures FirstIndex(PairsOf(tokens), (ty, r[i])) < FirstIndex(PairsOf(tokens), (ty, r[j]))
      {
        ValuesOfOrder(tokens, ty, r[i], r[j]);
      }
    }
  }
}
