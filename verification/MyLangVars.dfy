/** The fixed table of variables and the map it stands for. */
module MyLangVars {
  import opened Grammar
  import opened MyLangExpand
  import opened MyLangLines

  datatype Slot = Slot(used: bool, name: string, value: int)

  /** Each used slot is one entry of env, each entry one used slot. */
  ghost predicate Tabled(t: seq<Slot>, env: Env) {
    && (forall i :: 0 <= i < |t| && t[i].used ==> t[i].name in env && env[t[i].name] == t[i].value)
    && (forall n :: n in env ==> exists i :: 0 <= i < |t| && t[i].used && t[i].name == n)
    && (forall i, j :: 0 <= i < j < |t| && t[i].used && t[j].used ==> t[i].name != t[j].name)
  }

  function UsedCount(t: seq<Slot>): (k: nat)
    ensures k <= |t|
  {
    if t == [] then 0 else UsedCount(t[..|t| - 1]) + if t[|t| - 1].used then 1 else 0
  }

  lemma {:induction false} TableCount(t: seq<Slot>, env: Env)
    requires Tabled(t, env)
    ensures |env| == UsedCount(t)
  {
    if t != [] {
      var t', last := t[..|t| - 1], t[|t| - 1];
      if last.used {
        var env' := env - {last.name};
        assert env.Keys == env'.Keys + {last.name};
        assert |env.Keys| == |env| && |env'.Keys| == |env'|;
        assert Tabled(t', env') by { Shorter(t, env); }
        TableCount(t', env');
      } else {
        assert Tabled(t', env) by { Shorter(t, env); }
        TableCount(t', env);
      }
    } else {
      assert env == map[];
    }
  }

  lemma Shorter(t: seq<Slot>, env: Env)
    requires Tabled(t, env) && t != []
    ensures var t', last := t[..|t| - 1], t[|t| - 1]; Tabled(t', if last.used then env - {last.name} else env)
  {
    var t', last := t[..|t| - 1], t[|t| - 1];
    var env' := if last.used then env - {last.name} else env;
    forall n | n in env'
      ensures exists i :: 0 <= i < |t'| && t'[i].used && t'[i].name == n
    {
      var i :| 0 <= i < |t| && t[i].used && t[i].name == n;
      assert t'[i] == t[i];
    }
  }

  lemma {:induction false} AllUsed(t: seq<Slot>)
    ensures UsedCount(t) == |t| <==> forall i :: 0 <= i < |t| ==> t[i].used
  {
    if t != [] {
      AllUsed(t[..|t| - 1]);
    }
  }

  lemma Replaced(t: seq<Slot>, env: Env, k: nat, v: int)
    requires Tabled(t, env) && k < |t| && t[k].used
    ensures Tabled(t[k := Slot(true, t[k].name, v)], env[t[k].name := v])
  {
    var t', env' := t[k := Slot(true, t[k].name, v)], env[t[k].name := v];
    forall n | n in env'
      ensures exists i :: 0 <= i < |t'| && t'[i].used && t'[i].name == n
    {
      var i :| 0 <= i < |t| && t[i].used && t[i].name == n;
      assert t'[i].used && t'[i].name == n;
    }
  }

  lemma Added(t: seq<Slot>, env: Env, k: nat, n: string, v: int)
    requires Tabled(t, env) && k < |t| && !t[k].used && n !in env
    ensures Tabled(t[k := Slot(true, n, v)], env[n := v])
  {
    var t', env' := t[k := Slot(true, n, v)], env[n := v];
    forall m | m in env'
      ensures exists i :: 0 <= i < |t'| && t'[i].used && t'[i].name == m
    {
      if m == n {
        assert t'[k].used && t'[k].name == n;
      } else {
        var i :| 0 <= i < |t| && t[i].used && t[i].name == m;
        assert t'[i].used && t'[i].name == m;
      }
    }
  }

  /** The interpreter's variables: MAX_VARS slots, searched from the front. */
  class Variables {
    const slots: array<Slot>
    ghost var env: Env

    ghost predicate Valid()
      reads this, slots
    {
      slots.Length == MAX_VARS && Tabled(slots[..], env)
    }

    constructor ()
      ensures Valid() && fresh(slots) && env == map[]
    {
      slots := new Slot[MAX_VARS](_ => Slot(false, "", 0));
      env := map[];
    }

    /** mlang_reset. */
    method Reset()
      requires Valid()
      modifies this`env, slots
      ensures Valid() && env == map[]
    {
      for i := 0 to MAX_VARS
        invariant forall j :: 0 <= j < i ==> !slots[j].used
      {
        slots[i] := slots[i].(used := false);
      }
      env := map[];
    }

    method Find(name: string) returns (k: int)
      requires Valid()
      ensures -1 <= k < 32 && (k >= 0 <==> name in env)
      ensures k >= 0 ==> slots[k].used && slots[k].name == name && slots[k].value == env[name]
    {
      k := 0;
      while k < MAX_VARS
        invariant 0 <= k <= MAX_VARS
        invariant forall i :: 0 <= i < k ==> !(slots[i].used && slots[i].name == name)
      {
        if slots[k].used && slots[k].name == name {
          return;
        }
        k := k + 1;
      }
      k := -1;
    }

    /** A new name is refused exactly when 32 names are set. */
    method Set(name: string, value: int) returns (ok: bool)
      requires Valid() && |name| <= NAME_MAX
      modifies this`env, slots
      ensures Valid() && (ok <==> name in old(env) || |old(env)| < 32)
      ensures env == if ok then old(env)[name := value] else old(env)
    {
      var k := Find(name);
      if k >= 0 {
        Replaced(slots[..], env, k, value);
        slots[k] := slots[k].(value := value);
        env := env[name := value];
        return true;
      }
      k := 0;
      TableCount(slots[..], env);
      AllUsed(slots[..]);
      while k < MAX_VARS
        invariant 0 <= k <= MAX_VARS
        invariant forall i :: 0 <= i < k ==> slots[i].used
        invariant slots[..] == old(slots[..]) && env == old(env)
      {
        if !slots[k].used {
          assert !slots[..][k].used;
          Added(slots[..], env, k, name, value);
          slots[k] := Slot(true, name, value);
          env := env[name := value];
          return true;
        }
        k := k + 1;
      }
      return false;
    }
  }
}
