/** Shared vocabulary of the identity provider: optional values, results,
    first-match lookup (SQL `.first()`, `URLSearchParams.get`) and the
    query-parameter lists carried by URLs and posted forms. */
module Common {

  datatype Option<+T> = None | Some(value: T)

  datatype Result<+T, +E> = Ok(value: T) | Err(error: E)

  /** The first element of `s` that satisfies `p`, if any. */
  function First<T>(s: seq<T>, p: T -> bool): (r: Option<T>)
    ensures r.None? <==> forall i :: 0 <= i < |s| ==> !p(s[i])
    ensures r.Some? ==> exists i :: 0 <= i < |s| && s[i] == r.value && p(s[i]) &&
                                     forall j :: 0 <= j < i ==> !p(s[j])
  {
    if s == [] then None
    else if p(s[0]) then Some(s[0])
    else
      var r := First(s[1..], p);
      assert r.Some? ==> exists i :: 1 <= i < |s| && s[i] == r.value && p(s[i]) &&
                                     forall j :: 0 <= j < i ==> !p(s[j]) by {
        if r.Some? {
          var k :| 0 <= k < |s[1..]| && s[1..][k] == r.value && p(s[1..][k]) &&
                   forall j :: 0 <= j < k ==> !p(s[1..][j]);
          assert s[k + 1] == r.value && forall j :: 0 <= j < k + 1 ==> !p(s[j]) by {
            forall j | 0 <= j < k + 1 ensures !p(s[j]) {
              if j > 0 { assert s[j] == s[1..][j - 1]; }
            }
          }
        }
      }
      r
  }

  /** A list of name/value pairs, in order: the query of a URL or the fields of
      a posted form. */
  type Params = seq<(string, string)>

  /** `URLSearchParams.get` / `FormData.get`: the value of the first pair
      with that name. */
  function Param(ps: Params, name: string): (r: Option<string>)
    ensures r.None? <==> forall i :: 0 <= i < |ps| ==> ps[i].0 != name
    ensures r.Some? ==> exists i :: 0 <= i < |ps| && ps[i] == (name, r.value) &&
                                     forall j :: 0 <= j < i ==> ps[j].0 != name
  {
    if ps == [] then None
    else if ps[0].0 == name then Some(ps[0].1)
    else
      var r := Param(ps[1..], name);
      assert r.Some? ==> exists i :: 1 <= i < |ps| && ps[i] == (name, r.value) &&
                                     forall j :: 0 <= j < i ==> ps[j].0 != name by {
        if r.Some? {
          var k :| 0 <= k < |ps[1..]| && ps[1..][k] == (name, r.value) &&
                   forall j :: 0 <= j < k ==> ps[1..][j].0 != name;
          assert ps[k + 1] == (name, r.value) && forall j :: 0 <= j < k + 1 ==> ps[j].0 != name by {
            forall j | 0 <= j < k + 1 ensures ps[j].0 != name {
              if j > 0 { assert ps[j] == ps[1..][j - 1]; }
            }
          }
        }
      }
      r
  }

  lemma ParamCons(kv: (string, string), ps: Params, name: string)
    ensures Param([kv] + ps, name) == if kv.0 == name then Some(kv.1) else Param(ps, name)
  {
    assert ([kv] + ps)[1..] == ps;
  }

  lemma {:induction false} ParamAppend(ps: Params, kv: (string, string), name: string)
    ensures Param(ps + [kv], name) ==
            if Param(ps, name).Some? then Param(ps, name)
            else if kv.0 == name then Some(kv.1) else None
  {
    if ps != [] {
      assert ps + [kv] == [ps[0]] + (ps[1..] + [kv]);
      ParamCons(ps[0], ps[1..] + [kv], name);
      ParamCons(ps[0], ps[1..], name);
      assert [ps[0]] + ps[1..] == ps;
      ParamAppend(ps[1..], kv, name);
    } else {
      ParamCons(kv, [], name);
    }
  }

  /** `ps` with every pair named `name` dropped. */
  function RemoveParam(ps: Params, name: string): (r: Params)
    ensures forall i :: 0 <= i < |r| ==> r[i].0 != name
    ensures forall n :: n != name ==> Param(r, n) == Param(ps, n)
  {
    if ps == [] then []
    else
      var rest := RemoveParam(ps[1..], name);
      assert ps == [ps[0]] + ps[1..];
      forall n | n != name ensures Param(if ps[0].0 == name then rest else [ps[0]] + rest, n) == Param(ps, n) {
        ParamCons(ps[0], ps[1..], n);
        ParamCons(ps[0], rest, n);
      }
      if ps[0].0 == name then rest else [ps[0]] + rest
  }

  lemma RemoveParamCons(kv: (string, string), ps: Params, name: string)
    ensures RemoveParam([kv] + ps, name) == if kv.0 == name then RemoveParam(ps, name) else [kv] + RemoveParam(ps, name)
  {
    assert ([kv] + ps)[1..] == ps;
  }

  /** Removing a name no pair carries changes nothing. */
  lemma {:induction false} RemoveParamAbsent(ps: Params, name: string)
    requires forall i :: 0 <= i < |ps| ==> ps[i].0 != name
    ensures RemoveParam(ps, name) == ps
  {
    if ps != [] {
      assert ps == [ps[0]] + ps[1..];
      RemoveParamCons(ps[0], ps[1..], name);
      RemoveParamAbsent(ps[1..], name);
    }
  }

  /** Removing a name from a list with a pair appended. */
  lemma {:induction false} RemoveParamAppend(ps: Params, kv: (string, string), name: string)
    ensures RemoveParam(ps + [kv], name) == RemoveParam(ps, name) + if kv.0 == name then [] else [kv]
  {
    if ps == [] {
      assert [kv] + [] == [kv];
      RemoveParamCons(kv, [], name);
    } else {
      assert ps + [kv] == [ps[0]] + (ps[1..] + [kv]);
      assert ps == [ps[0]] + ps[1..];
      RemoveParamCons(ps[0], ps[1..] + [kv], name);
      RemoveParamCons(ps[0], ps[1..], name);
      RemoveParamAppend(ps[1..], kv, name);
    }
  }

  /** Removing two names gives the same list in either order. */
  lemma {:induction false} RemoveParamCommutes(ps: Params, a: string, b: string)
    ensures RemoveParam(RemoveParam(ps, a), b) == RemoveParam(RemoveParam(ps, b), a)
  {
    if ps != [] {
      assert ps == [ps[0]] + ps[1..];
      RemoveParamCons(ps[0], ps[1..], a);
      RemoveParamCons(ps[0], ps[1..], b);
      RemoveParamCons(ps[0], RemoveParam(ps[1..], a), b);
      RemoveParamCons(ps[0], RemoveParam(ps[1..], b), a);
      RemoveParamCommutes(ps[1..], a, b);
    }
  }

  /** The pairs of `ps` named `name`, in order. */
  function Only(ps: Params, name: string): Params
  {
    if ps == [] then []
    else (if ps[0].0 == name then [ps[0]] else []) + Only(ps[1..], name)
  }

  lemma OnlyCons(kv: (string, string), ps: Params, name: string)
    ensures Only([kv] + ps, name) == if kv.0 == name then [kv] + Only(ps, name) else Only(ps, name)
  {
    assert ([kv] + ps)[1..] == ps;
  }

  lemma {:induction false} OnlyAbsent(ps: Params, name: string)
    requires forall i :: 0 <= i < |ps| ==> ps[i].0 != name
    ensures Only(ps, name) == []
  {
    if ps != [] {
      OnlyAbsent(ps[1..], name);
    }
  }

  lemma {:induction false} OnlyAppend(ps: Params, kv: (string, string), name: string)
    ensures Only(ps + [kv], name) == Only(ps, name) + if kv.0 == name then [kv] else []
  {
    if ps == [] {
      assert [kv] + [] == [kv];
      OnlyCons(kv, [], name);
    } else {
      assert ps + [kv] == [ps[0]] + (ps[1..] + [kv]);
      assert ps == [ps[0]] + ps[1..];
      OnlyCons(ps[0], ps[1..] + [kv], name);
      OnlyCons(ps[0], ps[1..], name);
      OnlyAppend(ps[1..], kv, name);
    }
  }

  /** Removing one name leaves the pairs of every other name as they were. */
  lemma {:induction false} OnlyOfRemove(ps: Params, removed: string, name: string)
    requires removed != name
    ensures Only(RemoveParam(ps, removed), name) == Only(ps, name)
  {
    if ps != [] {
      assert ps == [ps[0]] + ps[1..];
      RemoveParamCons(ps[0], ps[1..], removed);
      OnlyCons(ps[0], RemoveParam(ps[1..], removed), name);
      OnlyOfRemove(ps[1..], removed, name);
    }
  }

  /** Lists that agree once two names are removed read the same for every
      other name. */
  lemma OthersKept(x: Params, y: Params, a: string, b: string)
    requires RemoveParam(RemoveParam(x, a), b) == RemoveParam(RemoveParam(y, a), b)
    ensures forall n :: n != a && n != b ==> Param(x, n) == Param(y, n)
  {
    forall n | n != a && n != b ensures Param(x, n) == Param(y, n) {
      calc {
        Param(x, n);
        Param(RemoveParam(x, a), n);
        Param(RemoveParam(RemoveParam(x, a), b), n);
        Param(RemoveParam(RemoveParam(y, a), b), n);
        Param(RemoveParam(y, a), n);
        Param(y, n);
      }
    }
  }

  /** Lists that agree once one name is removed read the same for every
      other name. */
  lemma OneNameKept(x: Params, y: Params, a: string)
    requires RemoveParam(x, a) == RemoveParam(y, a)
    ensures forall n :: n != a ==> Param(x, n) == Param(y, n)
  {
    forall n | n != a ensures Param(x, n) == Param(y, n) {
      assert Param(x, n) == Param(RemoveParam(x, a), n);
    }
  }

  /** A list with a single pair of a name carries no later pair of it. */
  lemma {:induction false} SinglePairUnique(ps: Params, kv: (string, string))
    requires Only(ps, kv.0) == [kv]
    ensures forall i, j :: 0 <= i < j < |ps| && ps[i].0 == kv.0 ==> ps[j].0 != kv.0
  {
    assert ps != [];
    assert ps == [ps[0]] + ps[1..];
    OnlyCons(ps[0], ps[1..], kv.0);
    if ps[0].0 == kv.0 {
      OnlyNone(ps[1..], kv.0);
    } else {
      SinglePairUnique(ps[1..], kv);
      forall i, j | 0 <= i < j < |ps| && ps[i].0 == kv.0 ensures ps[j].0 != kv.0 {
        assert ps[i] == ps[1..][i - 1] && ps[j] == ps[1..][j - 1];
      }
    }
  }

  /** A list with no pair of a name. */
  lemma {:induction false} OnlyNone(ps: Params, name: string)
    requires Only(ps, name) == []
    ensures forall i :: 0 <= i < |ps| ==> ps[i].0 != name
  {
    if ps != [] {
      assert ps == [ps[0]] + ps[1..];
      OnlyCons(ps[0], ps[1..], name);
      OnlyNone(ps[1..], name);
      assert forall i :: 1 <= i < |ps| ==> ps[i] == ps[1..][i - 1];
    }
  }

  /** Replaces the value of the first pair named `name` and drops the others. */
  function ReplaceFirst(ps: Params, name: string, value: string): (r: Params)
    requires Param(ps, name).Some?
    ensures Param(r, name) == Some(value)
    ensures forall i, j :: 0 <= i < j < |r| && r[i].0 == name ==> r[j].0 != name
    ensures forall n :: n != name ==> Param(r, n) == Param(ps, n)
    ensures RemoveParam(r, name) == RemoveParam(ps, name)
    ensures Only(r, name) == [(name, value)]
  {
    assert ps == [ps[0]] + ps[1..];
    ParamCons(ps[0], ps[1..], name);
    RemoveParamCons(ps[0], ps[1..], name);
    var r :=
      (if ps[0].0 == name then
         var rest := RemoveParam(ps[1..], name);
         ParamCons((name, value), rest, name);
         RemoveParamCons((name, value), rest, name);
         RemoveParamAbsent(rest, name);
         OnlyCons((name, value), rest, name);
         OnlyAbsent(rest, name);
         [(name, value)] + rest
       else
         var rest := ReplaceFirst(ps[1..], name, value);
         ParamCons(ps[0], rest, name);
         RemoveParamCons(ps[0], rest, name);
         OnlyCons(ps[0], rest, name);
         [ps[0]] + rest);
    OneNameKept(r, ps, name);
    SinglePairUnique(r, (name, value));
    r
  }

  /** `URLSearchParams.set`: afterwards exactly one pair carries `name`, with
      `value`; every other pair is kept, in order. The first existing pair
      with that name is overwritten in place, otherwise the pair is appended. */
  function SetParam(ps: Params, name: string, value: string): (r: Params)
    ensures Param(r, name) == Some(value)
    ensures forall i, j :: 0 <= i < j < |r| && r[i].0 == name ==> r[j].0 != name
    ensures forall n :: n != name ==> Param(r, n) == Param(ps, n)
    ensures RemoveParam(r, name) == RemoveParam(ps, name)
    ensures Only(r, name) == [(name, value)]
  {
    if Param(ps, name).Some? then ReplaceFirst(ps, name, value)
    else
      ParamAppend(ps, (name, value), name);
      RemoveParamAppend(ps, (name, value), name);
      OnlyAppend(ps, (name, value), name);
      OnlyAbsent(ps, name);
      assert RemoveParam(ps, name) + [] == RemoveParam(ps, name);
      forall n | n != name ensures Param(ps + [(name, value)], n) == Param(ps, n) {
        ParamAppend(ps, (name, value), n);
      }
      ps + [(name, value)]
  }

  /** A parsed absolute URL: everything but the query, and the query. */
  datatype Url = Url(base: string, query: Params)
}
