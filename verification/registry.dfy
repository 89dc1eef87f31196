/** The process-wide, ordered list of natively implemented builtin functions
    that host code adds to the script environment (extBuiltinFunc.go).
    The global list is modelled as an immutable sequence that each operation
    takes and returns. */
module Registry {

  import opened Wrappers

  /** Identity of a native implementation; the registry never looks inside it. */
  type FnId = nat

  /** A builtin function descriptor: its script-visible name and its implementation. */
  datatype Builtin = Builtin(name: string, value: FnId)

  /** Some entry of the registry carries exactly this name. */
  predicate Registered(reg: seq<Builtin>, name: string)
  {
    exists i :: 0 <= i < |reg| && reg[i].name == name
  }

  /** No two entries of the registry share a name. */
  predicate DistinctNames(reg: seq<Builtin>)
  {
    forall i, j :: 0 <= i < j < |reg| ==> reg[i].name != reg[j].name
  }

  /** The implementation a name resolves to: that of the first entry carrying it. */
  function Lookup(reg: seq<Builtin>, name: string): (r: Option<FnId>)
    ensures r.Some? <==> Registered(reg, name)
    ensures r.Some? ==> Builtin(name, r.value) in reg
  {
    if |reg| == 0 then None
    else if reg[0].name == name then Some(reg[0].value)
    else
      var r := Lookup(reg[1..], name);
      assert Registered(reg[1..], name) ==> Registered(reg, name) by {
        if Registered(reg[1..], name) {
          var i :| 0 <= i < |reg[1..]| && reg[1..][i].name == name;
          assert reg[i + 1].name == name;
        }
      }
      assert Registered(reg, name) ==> Registered(reg[1..], name) by {
        if Registered(reg, name) {
          var i :| 0 <= i < |reg| && reg[i].name == name;
          assert i != 0;
          assert reg[1..][i - 1].name == name;
        }
      }
      r
  }

  /** The membership scan of the source: it walks the whole registry without
      stopping early and reports whether some entry has the name. */
  method BuiltinIsExist(reg: seq<Builtin>, name: string) returns (exist: bool)
    ensures exist <==> Registered(reg, name)
  {
    exist := false;
    for i := 0 to |reg|
      invariant exist <==> exists j :: 0 <= j < i && reg[j].name == name
    {
      if reg[i].name == name {
        exist := true;
      }
    }
  }

  /** Registers one function unless its name is already taken. */
  function AddFunction(reg: seq<Builtin>, name: string, val: FnId): (r: seq<Builtin>)
    ensures Registered(r, name)
    ensures |r| == if Registered(reg, name) then |reg| else |reg| + 1
    ensures r[..|reg|] == reg
    ensures !Registered(reg, name) ==> r[|reg|] == Builtin(name, val)
  {
    if Registered(reg, name) then reg
    else
      var r := reg + [Builtin(name, val)];
      assert r[|reg|].name == name;
      r
  }

  /** Registers a batch in order, abandoning the rest of the batch at the first
      name that is already registered (whether it was there before the call or
      was added earlier in the same batch). What gets added is always a prefix
      of the batch. */
  function AddFunctions(reg: seq<Builtin>, batch: seq<Builtin>): (r: seq<Builtin>)
    ensures |reg| <= |r| <= |reg| + |batch|
    ensures r == reg + batch[..|r| - |reg|]
    decreases |batch|
  {
    if |batch| == 0 then
      assert reg + batch[..0] == reg;
      reg
    else if Registered(reg, batch[0].name) then
      assert reg + batch[..0] == reg;
      reg
    else
      var r := AddFunctions(reg + [batch[0]], batch[1..]);
      var m := |r| - |reg| - 1;
      assert (reg + [batch[0]]) + batch[1..][..m] == reg + batch[..m + 1];
      r
  }

  /** Reference description of where a batch registration stops: each of the
      first `k` entries was new when it was reached, and entry `k`, if there is
      one, was already registered when it was reached. */
  predicate StopsAt(reg: seq<Builtin>, batch: seq<Builtin>, k: nat)
  {
    && k <= |batch|
    && (forall i :: 0 <= i < k ==> !Registered(reg + batch[..i], batch[i].name))
    && (k < |batch| ==> Registered(reg + batch[..k], batch[k].name))
  }

  /** A name is registered in a concatenation iff it is registered in one of the parts. */
  lemma RegisteredConcat(a: seq<Builtin>, b: seq<Builtin>, name: string)
    ensures Registered(a + b, name) <==> Registered(a, name) || Registered(b, name)
  {
    if Registered(a + b, name) {
      var i :| 0 <= i < |a + b| && (a + b)[i].name == name;
      if i >= |a| {
        assert b[i - |a|].name == name;
      }
    }
    if Registered(a, name) {
      var i :| 0 <= i < |a| && a[i].name == name;
      assert (a + b)[i].name == name;
    }
    if Registered(b, name) {
      var i :| 0 <= i < |b| && b[i].name == name;
      assert (a + b)[|a| + i].name == name;
    }
  }

  /** Every name of a prefix is a name of the whole. */
  lemma RegisteredPrefix(a: seq<Builtin>, b: seq<Builtin>, name: string)
    requires a <= b
    requires Registered(a, name)
    ensures Registered(b, name)
  {
    var i :| 0 <= i < |a| && a[i].name == name;
    assert b[i].name == name;
  }

  /** Extending a registry never changes what an already registered name resolves to. */
  lemma {:induction false} LookupPrefix(a: seq<Builtin>, b: seq<Builtin>, name: string)
    requires a <= b
    requires Registered(a, name)
    ensures Lookup(b, name) == Lookup(a, name)
    decreases |a|
  {
    if a[0].name != name {
      assert Registered(a[1..], name) by {
        var i :| 0 <= i < |a| && a[i].name == name;
        assert a[1..][i - 1].name == name;
      }
      assert a[1..] <= b[1..];
      LookupPrefix(a[1..], b[1..], name);
    }
  }

  /** After a registration the name is present, and a name that was new resolves
      to the implementation just given. */
  lemma AddFunctionThenExists(reg: seq<Builtin>, name: string, val: FnId)
    ensures Registered(AddFunction(reg, name, val), name)
    ensures !Registered(reg, name) ==> Lookup(AddFunction(reg, name, val), name) == Some(val)
  {
    if !Registered(reg, name) {
      var r := AddFunction(reg, name, val);
      assert Lookup(r, name) == Lookup(reg + [Builtin(name, val)], name);
      assert forall i :: 0 <= i < |reg| ==> r[i].name != name;
      LookupFirst(r, |reg|);
    }
  }

  /** Lookup resolves to the first entry carrying the name. */
  lemma {:induction false} LookupFirst(reg: seq<Builtin>, k: nat)
    requires k < |reg|
    requires forall i :: 0 <= i < k ==> reg[i].name != reg[k].name
    ensures Lookup(reg, reg[k].name) == Some(reg[k].value)
    decreases k
  {
    if k > 0 {
      assert forall i :: 0 <= i < k - 1 ==> reg[1..][i].name != reg[1..][k - 1].name by {
        forall i | 0 <= i < k - 1
          ensures reg[1..][i].name != reg[1..][k - 1].name
        {
          assert reg[1..][i] == reg[i + 1];
        }
      }
      LookupFirst(reg[1..], k - 1);
    }
  }

  /** Registering a taken name is a no-op; so registering twice equals registering once,
      whatever implementation the second attempt carries. */
  lemma AddFunctionIdempotent(reg: seq<Builtin>, name: string, val: FnId, val': FnId)
    ensures AddFunction(AddFunction(reg, name, val), name, val') == AddFunction(reg, name, val)
  {
  }

  /** The first registration of a name wins: no later registration, under any name,
      changes what a registered name resolves to. */
  lemma AddFunctionNeverOverwrites(reg: seq<Builtin>, name: string, val: FnId, n: string)
    requires Registered(reg, n)
    ensures Lookup(AddFunction(reg, name, val), n) == Lookup(reg, n)
  {
    var r := AddFunction(reg, name, val);
    assert reg <= r;
    LookupPrefix(reg, r, n);
  }

  /** Registering one function keeps names pairwise distinct. */
  lemma AddFunctionPreservesDistinct(reg: seq<Builtin>, name: string, val: FnId)
    requires DistinctNames(reg)
    ensures DistinctNames(AddFunction(reg, name, val))
  {
  }

  /** Extending the accepted prefix by one new entry keeps the stop description true. */
  lemma StopsAtStep(reg: seq<Builtin>, batch: seq<Builtin>, k: nat)
    requires |batch| > 0
    requires !Registered(reg, batch[0].name)
    requires StopsAt(reg + [batch[0]], batch[1..], k)
    ensures StopsAt(reg, batch, k + 1)
  {
    var reg', rest := reg + [batch[0]], batch[1..];
    forall i | 0 <= i < k + 1
      ensures !Registered(reg + batch[..i], batch[i].name)
    {
      if i == 0 {
        assert reg + batch[..0] == reg;
      } else {
        assert reg + batch[..i] == reg' + rest[..i - 1];
        assert batch[i] == rest[i - 1];
      }
    }
    if k + 1 < |batch| {
      assert reg + batch[..k + 1] == reg' + rest[..k];
      assert batch[k + 1] == rest[k];
    }
  }

  /** The batch registration stops exactly where the reference description says. */
  lemma {:induction false} AddFunctionsStopsAt(reg: seq<Builtin>, batch: seq<Builtin>)
    ensures StopsAt(reg, batch, |AddFunctions(reg, batch)| - |reg|)
    decreases |batch|
  {
    if |batch| == 0 {
    } else if Registered(reg, batch[0].name) {
      assert reg + batch[..0] == reg;
    } else {
      var reg' := reg + [batch[0]];
      AddFunctionsStopsAt(reg', batch[1..]);
      StopsAtStep(reg, batch, |AddFunctions(reg', batch[1..])| - |reg'|);
    }
  }

  /** At most one position fits the stop description. */
  lemma StopsAtUnique(reg: seq<Builtin>, batch: seq<Builtin>, k1: nat, k2: nat)
    requires StopsAt(reg, batch, k1)
    requires StopsAt(reg, batch, k2)
    ensures k1 == k2
  {
  }

  /** A batch registration appends exactly the prefix of the batch that the stop
      description selects. */
  lemma AddFunctionsSpec(reg: seq<Builtin>, batch: seq<Builtin>, k: nat)
    requires StopsAt(reg, batch, k)
    ensures AddFunctions(reg, batch) == reg + batch[..k]
  {
    AddFunctionsStopsAt(reg, batch);
    StopsAtUnique(reg, batch, k, |AddFunctions(reg, batch)| - |reg|);
  }

  /** The whole batch is appended, in order, iff its names are pairwise distinct and
      none of them is registered yet. */
  lemma AddFunctionsAcceptsAll(reg: seq<Builtin>, batch: seq<Builtin>)
    ensures AddFunctions(reg, batch) == reg + batch
        <==> DistinctNames(batch) && forall i :: 0 <= i < |batch| ==> !Registered(reg, batch[i].name)
  {
    var r := AddFunctions(reg, batch);
    var k := |r| - |reg|;
    AddFunctionsStopsAt(reg, batch);
    assert batch[..|batch|] == batch;
    if r == reg + batch {
      assert k == |batch|;
      forall i | 0 <= i < |batch|
        ensures !Registered(reg, batch[i].name)
        ensures forall j :: 0 <= j < i ==> batch[j].name != batch[i].name
      {
        RegisteredConcat(reg, batch[..i], batch[i].name);
        forall j | 0 <= j < i
          ensures batch[j].name != batch[i].name
        {
          assert batch[..i][j] == batch[j];
        }
      }
    }
    if DistinctNames(batch) && forall i :: 0 <= i < |batch| ==> !Registered(reg, batch[i].name) {
      forall i | 0 <= i < |batch|
        ensures !Registered(reg + batch[..i], batch[i].name)
      {
        RegisteredConcat(reg, batch[..i], batch[i].name);
        forall j | 0 <= j < i
          ensures batch[..i][j].name != batch[i].name
        {
          assert batch[..i][j] == batch[j];
        }
      }
    }
  }

  /** Short-circuit: once the batch reaches an entry whose name is taken (by the
      registry or by an earlier entry of the same batch), nothing from that entry
      on is added, even names that were never registered. */
  lemma AddFunctionsStopsAtDuplicate(reg: seq<Builtin>, batch: seq<Builtin>, j: nat)
    requires j < |batch|
    requires Registered(reg, batch[j].name) || exists i :: 0 <= i < j && batch[i].name == batch[j].name
    ensures AddFunctions(reg, batch) <= reg + batch[..j]
    ensures forall n :: Registered(AddFunctions(reg, batch), n) ==> Registered(reg + batch[..j], n)
  {
    var r := AddFunctions(reg, batch);
    var k := |r| - |reg|;
    AddFunctionsStopsAt(reg, batch);
    RegisteredConcat(reg, batch[..j], batch[j].name);
    if !Registered(reg, batch[j].name) {
      var i :| 0 <= i < j && batch[i].name == batch[j].name;
      assert batch[..j][i] == batch[i];
    }
    assert Registered(reg + batch[..j], batch[j].name);
    assert reg + batch[..k] <= reg + batch[..j];
    forall n | Registered(r, n)
      ensures Registered(reg + batch[..j], n)
    {
      RegisteredPrefix(r, reg + batch[..j], n);
    }
  }

  /** A concrete instance: with "B" registered, the batch [A, B, C]
      adds A only, and C is lost although its name is new. */
  lemma AddFunctionsExample()
    ensures AddFunctions([Builtin("B", 0)], [Builtin("A", 1), Builtin("B", 2), Builtin("C", 3)])
         == [Builtin("B", 0), Builtin("A", 1)]
  {
    var reg, batch := [Builtin("B", 0)], [Builtin("A", 1), Builtin("B", 2), Builtin("C", 3)];
    assert !Registered(reg, "A");
    assert (reg + batch[..1])[0].name == "B";
    AddFunctionsSpec(reg, batch, 1);
  }

  /** Registering a batch keeps names pairwise distinct. */
  lemma AddFunctionsPreservesDistinct(reg: seq<Builtin>, batch: seq<Builtin>)
    requires DistinctNames(reg)
    ensures DistinctNames(AddFunctions(reg, batch))
  {
    var r := AddFunctions(reg, batch);
    AddFunctionsStopsAt(reg, batch);
    forall i, j | 0 <= i < j < |r|
      ensures r[i].name != r[j].name
    {
      if j >= |reg| {
        var m := j - |reg|;
        assert r[..j] == reg + batch[..m];
        assert r[j] == batch[m];
        assert !Registered(reg + batch[..m], batch[m].name);
        assert (reg + batch[..m])[i] == r[i];
      }
    }
  }

  /** A batch registration never changes what an already registered name resolves to. */
  lemma AddFunctionsNeverOverwrites(reg: seq<Builtin>, batch: seq<Builtin>, n: string)
    requires Registered(reg, n)
    ensures Lookup(AddFunctions(reg, batch), n) == Lookup(reg, n)
  {
    LookupPrefix(reg, AddFunctions(reg, batch), n);
  }

  /** A one-entry batch behaves exactly like a single registration. */
  lemma AddFunctionsSingleton(reg: seq<Builtin>, b: Builtin)
    ensures AddFunctions(reg, [b]) == AddFunction(reg, b.name, b.value)
  {
    if !Registered(reg, b.name) {
      assert [b][1..] == [];
    }
  }
}
