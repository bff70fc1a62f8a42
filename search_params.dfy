/**
 * The list operations of the `URLSearchParams` class (section 6.2 of the WHATWG
 * URL Standard) that the rule engine calls, on the list of name-value pairs.
 */
module SearchParams {
  import opened Wrappers
  import FormUrlEncoded
  import opened Seqs

  type Pair = FormUrlEncoded.Pair

  /** `new URLSearchParams(search)`: a leading `?` is dropped and the rest parsed. */
  function FromSearch(search: string): seq<Pair> {
    FormUrlEncoded.Parse(if |search| > 0 && search[0] == '?' then search[1..] else search)
  }

  /** `params.toString()`. */
  function ToString(q: seq<Pair>): (s: string)
    ensures s == "" <==> q == []
  {
    FormUrlEncoded.Serialize(q)
  }

  /** `params.has(name)`. */
  predicate Has(q: seq<Pair>, name: string) {
    exists i :: 0 <= i < |q| && q[i].0 == name
  }

  /** `params.get(name)`: the value of the first pair named `name`; `None` for null. */
  function Get(q: seq<Pair>, name: string): (r: Option<string>)
    ensures r.Some? <==> Has(q, name)
    ensures r.Some? ==> exists i :: 0 <= i < |q| && q[i] == (name, r.value) && !Has(q[..i], name)
  {
    if q == [] then None
    else if q[0].0 == name then
      assert q[..0] == [];
      Some(q[0].1)
    else
      var r := Get(q[1..], name);
      assert r.Some? ==> exists i :: 0 <= i < |q| && q[i] == (name, r.value) && !Has(q[..i], name) by {
        if r.Some? {
          var i :| 0 <= i < |q| - 1 && q[1..][i] == (name, r.value) && !Has(q[1..][..i], name);
          assert q[i + 1] == (name, r.value);
          assert q[..i + 1] == [q[0]] + q[1..][..i];
        }
      }
      assert Has(q, name) ==> Has(q[1..], name) by {
        if Has(q, name) {
          var i :| 0 <= i < |q| && q[i].0 == name;
          assert q[1..][i - 1].0 == name;
        }
      }
      r
  }

  /** `params.delete(name)`: every pair named `name` is removed. */
  function Delete(q: seq<Pair>, name: string): (r: seq<Pair>)
    ensures !Has(r, name)
    ensures forall p :: p in r <==> p in q && p.0 != name
    ensures !Has(q, name) ==> r == q
    ensures Has(q, name) ==> |r| < |q|
  {
    if q == [] then []
    else if q[0].0 == name then Delete(q[1..], name)
    else
      var r := [q[0]] + Delete(q[1..], name);
      assert !Has(q, name) ==> !Has(q[1..], name) by {
        if Has(q[1..], name) {
          var i :| 0 <= i < |q| - 1 && q[1..][i].0 == name;
          assert q[i + 1].0 == name;
        }
      }
      assert Has(q, name) ==> Has(q[1..], name) by {
        if Has(q, name) {
          var i :| 0 <= i < |q| && q[i].0 == name;
          assert q[1..][i - 1].0 == name;
        }
      }
      r
  }

  /**
   * `params.set(name, value)`: the first pair named `name` takes `value` and the
   * other pairs with that name go; with no such pair, one is appended.
   */
  function Set(q: seq<Pair>, name: string, value: string): (r: seq<Pair>)
    ensures r != []
    ensures Get(r, name) == Some(value)
    ensures Delete(r, name) == Delete(q, name)
  {
    if q == [] then [(name, value)]
    else if q[0].0 == name then [(name, value)] + Delete(q[1..], name)
    else [q[0]] + Set(q[1..], name, value)
  }

  /** The pairs of `q` named `name`. */
  function Named(q: seq<Pair>, name: string): seq<Pair> {
    if q == [] then [] else (if q[0].0 == name then [q[0]] else []) + Named(q[1..], name)
  }

  /** After `set`, exactly one pair carries the name. */
  lemma {:induction false} SetLeavesOnePair(q: seq<Pair>, name: string, value: string)
    ensures Named(Set(q, name, value), name) == [(name, value)]
  {
    if q != [] {
      if q[0].0 == name {
        NamedDeleted(q[1..], name);
      } else {
        SetLeavesOnePair(q[1..], name, value);
      }
    }
  }

  lemma {:induction false} NamedDeleted(q: seq<Pair>, name: string)
    ensures Named(Delete(q, name), name) == []
  {
    if q != [] {
      NamedDeleted(q[1..], name);
    }
  }

  /** `delete` and `set` act on pairs in order: they distribute over concatenation. */
  lemma {:induction false} DeleteAppend(a: seq<Pair>, b: seq<Pair>, name: string)
    ensures Delete(a + b, name) == Delete(a, name) + Delete(b, name)
  {
    if a == [] {
      assert a + b == b;
    } else {
      ConsAppend(a, b);
      DeleteAppend(a[1..], b, name);
      if a[0].0 != name {
        Associative([a[0]], Delete(a[1..], name), Delete(b, name));
      }
    }
  }

  /** When the name is present, `set` writes the value where its first pair stood. */
  lemma {:induction false} SetInPlace(q: seq<Pair>, name: string, value: string, i: nat)
    requires i < |q| && q[i].0 == name && !Has(q[..i], name)
    ensures Set(q, name, value) == q[..i] + [(name, value)] + Delete(q[i + 1..], name)
  {
    var front, back := q[..i], q[i..];
    SplitAt(q, i);
    SetSkipsPrefix(front, back, name, value);
    assert back[0] == q[i] && back[1..] == q[i + 1..];
    Associative(front, [(name, value)], Delete(q[i + 1..], name));
  }

  /** `set` passes over leading pairs that do not carry the name. */
  lemma {:induction false} SetSkipsPrefix(a: seq<Pair>, b: seq<Pair>, name: string, value: string)
    requires !Has(a, name)
    ensures Set(a + b, name, value) == a + Set(b, name, value)
  {
    if a == [] {
      assert a + b == b;
    } else {
      var ab, tail := a + b, a[1..];
      assert a[0].0 != name;
      ConsAppend(a, b);
      SetSkipsPrefix(tail, b, name, value);
      calc {
        Set(ab, name, value);
        [a[0]] + Set(tail + b, name, value);
        [a[0]] + (tail + Set(b, name, value));
        { ConsAppend(a, Set(b, name, value)); }
        a + Set(b, name, value);
      }
    }
  }

  /** When the name is absent, `set` appends one pair. */
  lemma {:induction false} SetAppends(q: seq<Pair>, name: string, value: string)
    requires !Has(q, name)
    ensures Set(q, name, value) == q + [(name, value)]
  {
    if q != [] {
      assert q[0].0 != name;
      SetAppends(q[1..], name, value);
      ConsAppend(q, [(name, value)]);
    }
  }

  /** Setting the same pair again changes nothing. */
  lemma {:induction false} SetIdempotent(q: seq<Pair>, name: string, value: string)
    ensures Set(Set(q, name, value), name, value) == Set(q, name, value)
  {
    if q != [] {
      if q[0].0 == name {
        var rest := Delete(q[1..], name);
        assert Set(q, name, value) == [(name, value)] + rest;
        assert Delete(rest, name) == rest;
      } else {
        SetIdempotent(q[1..], name, value);
      }
    }
  }
}
