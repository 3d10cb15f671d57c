/** The table of argument types that a format needs, and fetching the arguments by it
    (REGISTER_ARG in intl/printf-parse.c, and intl/printf-args.c). */
module PrintfArgs {
  import opened Basics
  import opened PrintfSize
  import opened PrintfSyntax

  /** `t` says for each argument position how it is used, and ends with a used one. */
  ghost predicate Table(t: seq<ArgType>, refs: seq<Ref>) {
    && (forall i :: 0 <= i < |refs| ==> refs[i].index < |t| && t[refs[i].index] == refs[i].kind)
    && (forall n :: 0 <= n < |t| ==> (t[n] == TypeNone <==> !Uses(refs, n)))
    && (|t| > 0 ==> Uses(refs, |t| - 1))
  }

  lemma {:induction false} UsesMore(refs: seq<Ref>, r: Ref, n: nat)
    ensures Uses(refs + [r], n) <==> Uses(refs, n) || r.index == n
  {
    var all := refs + [r];
    assert all[|refs|] == r;
    if Uses(refs, n) {
      var i :| 0 <= i < |refs| && refs[i].index == n;
      assert all[i].index == n;
    }
  }

  lemma {:induction false} RegisterOne(t: seq<ArgType>, refs: seq<Ref>, r: Ref)
    requires Table(t, refs) && Typed(refs) && Agrees(refs) && r.kind != TypeNone
    ensures match Register(t, r)
      case Some(u) => Table(u, refs + [r]) && Agrees(refs + [r])
      case None => !Agrees(refs + [r])
  {
    var all := refs + [r];
    assert all[|refs|] == r;
    forall n: nat ensures Uses(all, n) <==> Uses(refs, n) || r.index == n {
      UsesMore(refs, r, n);
    }
    match Register(t, r)
    case Some(u) =>
      assert forall i :: 0 <= i < |refs| ==> all[i] == refs[i];
      assert forall i :: 0 <= i < |all| ==> all[i].index < |u| && u[all[i].index] == all[i].kind;
    case None =>
      assert r.index < |t| && t[r.index] != TypeNone && t[r.index] != r.kind;
      assert Uses(refs, r.index);
      var i :| 0 <= i < |refs| && refs[i].index == r.index;
      assert all[i].kind != all[|refs|].kind;
  }

  /** Registering succeeds exactly when every position is always used with the same type, and then
      gives each used position its type and leaves the others untyped. */
  lemma {:induction false} RegisterMeans(refs: seq<Ref>)
    requires Typed(refs)
    ensures match RegisterAll([], refs)
      case Some(t) => Table(t, refs) && Agrees(refs)
      case None => !Agrees(refs)
    decreases |refs|
  {
    hide Register, Table, Agrees;
    if refs == [] {
      NoRefs();
    } else {
      var front, r := refs[..|refs|-1], refs[|refs|-1];
      assert refs == front + [r];
      RegisterMeans(front);
      RegisterMore([], front, [r]);
      match RegisterAll([], front)
      case Some(t) =>
        RegisterOne(t, front, r);
        assert RegisterAll(t, [r]) == Register(t, r) by { RegisterLast(t, r); }
      case None => FewerAgree(front, r);
    }
  }

  lemma {:induction false} RegisterLast(t: seq<ArgType>, r: Ref)
    ensures RegisterAll(t, [r]) == Register(t, r)
  {
    hide Register;
    assert [r][1..] == [];
  }

  lemma {:induction false} NoRefs()
    ensures Table([], []) && Agrees([])
  {
  }

  lemma {:induction false} FewerAgree(front: seq<Ref>, r: Ref)
    requires !Agrees(front)
    ensures !Agrees(front + [r])
  {
    var i, j :| 0 <= i < |front| && 0 <= j < |front| && front[i].index == front[j].index && front[i].kind != front[j].kind;
    var all := front + [r];
    assert all[i] == front[i] && all[j] == front[j];
  }

  /** A fetched argument: its type and the raw value taken from the argument list. */
  datatype Argument = Argument(kind: ArgType, value: int)

  /** `printf_fetchargs`: takes the arguments in order, each with the type the format gave it. */
  method FetchArgs(types: seq<ArgType>, va: seq<int>) returns (ret: int, a: seq<Argument>)
    requires |va| >= |types|
    ensures ret == 0 || ret == -1
    ensures ret == 0 <==> forall n :: 0 <= n < |types| ==> types[n] != TypeNone
    ensures ret == 0 ==> |a| == |types| && forall n :: 0 <= n < |types| ==> a[n] == Argument(types[n], va[n])
  {
    a := [];
    var i := 0;
    while i < |types|
      invariant 0 <= i <= |types| && |a| == i
      invariant forall n :: 0 <= n < i ==> types[n] != TypeNone && a[n] == Argument(types[n], va[n])
    {
      if types[i] == TypeNone {
        return -1, a;
      }
      a := a + [Argument(types[i], va[i])];
      i := i + 1;
    }
    ret := 0;
  }

  /** Fetching succeeds exactly for formats that leave no argument position unused. */
  lemma {:induction false} NoGaps(t: seq<ArgType>, refs: seq<Ref>)
    requires Typed(refs) && RegisterAll([], refs) == Some(t)
    ensures (forall n :: 0 <= n < |t| ==> t[n] != TypeNone) <==> (forall n :: 0 <= n < |t| ==> Uses(refs, n))
    ensures forall i :: 0 <= i < |refs| ==> refs[i].index < |t| && t[refs[i].index] == refs[i].kind
    ensures |t| > 0 ==> Uses(refs, |t| - 1)
  {
    RegisterMeans(refs);
  }
}
