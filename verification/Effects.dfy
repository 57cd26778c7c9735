/** The SQL statements that change the membership and tenant tables, as guarded map updates, and what
    any sequence of them amounts to: the pointwise maximum, by version, of what was asserted. */
module Effects {
  import opened Wrappers
  import opened Model

  /** One statement, with the row it proposes. */
  datatype Effect =
    | PutMember(id: Id, row: Row)
    | PutTenant(id: Id, state: TenantRow)
    | Remove(id: Id)
  {
    /** What the statement says about authority, without the delivery that said it. */
    function Claims(): Claim {
      match this
      case PutMember(id, row) => RowClaim(id, row)
      case PutTenant(id, state) => TenantClaim(id, state.status, state.pair)
      case Remove(id) => Removal(id)
    }
  }

  datatype Claim =
    | MemberClaim(id: Id, identity: Identity, status: Status, version: int)
    | TenantClaim(id: Id, tenantStatus: string, pair: Pair)
    | Removal(id: Id)

  function RowClaim(id: Id, row: Row): Claim {
    MemberClaim(id, row.identity, row.status, row.version)
  }

  /** The CHECK constraints of the two tables. A statement proposing a row that breaks one fails,
      and its transaction with it, whether or not the row would have replaced another. */
  predicate Checked(e: Effect) {
    match e
    case PutMember(_, row) => row.version > 0 && row.appliedMark > 0
    case PutTenant(_, state) => state.pair.security > 0 && state.pair.version > 0 && state.appliedMark > 0
    case Remove(_) => true
  }

  /** Insert, or on conflict replace every column but the identity when the version is higher. */
  function Upsert(members: map<Id, Row>, id: Id, row: Row): map<Id, Row> {
    if id !in members then members[id := row]
    else if row.version > members[id].version then members[id := row.(identity := members[id].identity)]
    else members
  }

  /** Insert, or on conflict replace when the pair is higher. */
  function UpsertTenant(tenants: map<Id, TenantRow>, id: Id, state: TenantRow): map<Id, TenantRow> {
    if id !in tenants || tenants[id].pair.Less(state.pair) then tenants[id := state] else tenants
  }

  function Step(t: Tables, e: Effect): Tables {
    match e
    case PutMember(id, row) => t.(members := Upsert(t.members, id, row))
    case PutTenant(id, state) => t.(tenants := UpsertTenant(t.tenants, id, state))
    case Remove(id) => t.(members := t.members - {id})
  }

  function Fold(t: Tables, es: seq<Effect>): Tables {
    if es == [] then t else Step(Fold(t, es[..|es| - 1]), es[|es| - 1])
  }

  lemma {:induction false} FoldConcat(t: Tables, a: seq<Effect>, b: seq<Effect>)
    ensures Fold(t, a + b) == Fold(Fold(t, a), b)
  {
    if b == [] {
      assert a + b == a;
    } else {
      assert (a + b)[..|a + b| - 1] == a + b[..|b| - 1];
      FoldConcat(t, a, b[..|b| - 1]);
    }
  }

  lemma {:induction false} FoldOne(t: Tables, e: Effect)
    ensures Fold(t, [e]) == Step(t, e)
  {
    assert Fold(t, [e][..0]) == t;
  }

  predicate Removes(es: seq<Effect>, m: Id) {
    Remove(m) in es
  }

  /** What holds of a claim once a projection reflects it: the state held is that one or a newer. */
  predicate Reflects(t: Tables, c: Claim) {
    match c
    case MemberClaim(id, _, _, version) => id in t.members && version <= t.members[id].version
    case TenantClaim(id, _, pair) => id in t.tenants && pair.AtMost(t.tenants[id].pair)
    case Removal(_) => true
  }

  lemma {:induction false} StepKeepsReflected(t: Tables, e: Effect, c: Claim)
    requires Reflects(t, c)
    requires c.MemberClaim? ==> e != Remove(c.id)
    ensures Reflects(Step(t, e), c)
  {
  }

  lemma {:induction false} FoldKeepsReflected(t: Tables, es: seq<Effect>, c: Claim)
    requires Reflects(t, c)
    requires c.MemberClaim? ==> !Removes(es, c.id)
    ensures Reflects(Fold(t, es), c)
  {
    if es != [] {
      FoldKeepsReflected(t, es[..|es| - 1], c);
      StepKeepsReflected(Fold(t, es[..|es| - 1]), es[|es| - 1], c);
    }
  }

  /** Whatever is asserted and not removed is reflected, wherever in the sequence it stood. */
  lemma {:induction false} FoldReflects(t: Tables, es: seq<Effect>, e: Effect)
    requires e in es && !e.Remove?
    requires e.PutMember? ==> !Removes(es, e.id)
    ensures Reflects(Fold(t, es), e.Claims())
  {
    var init, last := es[..|es| - 1], es[|es| - 1];
    if e == last {
    } else {
      assert e in init;
      FoldReflects(t, init, e);
      StepKeepsReflected(Fold(t, init), last, e.Claims());
    }
  }

  /** A row that is never removed keeps its identity columns, and its version never goes down; and if
      its status or version changed, one statement proposed exactly that status at that version. */
  lemma {:induction false} FoldRow(t: Tables, es: seq<Effect>, m: Id)
    requires m in t.members && !Removes(es, m)
    ensures var t' := Fold(t, es);
            && m in t'.members
            && t'.members[m].identity == t.members[m].identity
            && t.members[m].version <= t'.members[m].version
            && (t'.members[m] == t.members[m] || Proposed(es, m, t'.members[m], t.members[m].version))
  {
    if es != [] {
      FoldRow(t, es[..|es| - 1], m);
      var before := Fold(t, es[..|es| - 1]);
      if before.members[m] != t.members[m] {
        var e :| e in es[..|es| - 1] && Proposes(e, m, before.members[m], t.members[m].version);
        assert e in es;
      }
      assert es[|es| - 1] in es;
      if Step(before, es[|es| - 1]).members[m] != before.members[m] {
        assert Proposes(es[|es| - 1], m, Step(before, es[|es| - 1]).members[m], t.members[m].version);
      }
    }
  }

  /** Every row came from somewhere: it stood before, or one statement proposed all of it but its identity. */
  lemma {:induction false} FoldRowFrom(t: Tables, es: seq<Effect>, m: Id)
    requires m in Fold(t, es).members
    ensures var row := Fold(t, es).members[m];
            (m in t.members && row == t.members[m])
            || exists e :: e in es && e.PutMember? && e.id == m && e.row.(identity := row.identity) == row
  {
    if es != [] {
      var init, last := es[..|es| - 1], es[|es| - 1];
      assert last in es && forall e :: e in init ==> e in es;
      var before := Fold(t, init);
      if m in before.members && before.members[m] == Fold(t, es).members[m] {
        FoldRowFrom(t, init, m);
      } else {
        assert last.PutMember? && last.id == m;
      }
    }
  }

  function RowAt(t: Tables, m: Id): Option<Row> {
    if m in t.members then Some(t.members[m]) else None
  }

  predicate About(e: Effect, m: Id) {
    !e.PutTenant? && e.id == m
  }

  lemma {:induction false} FoldElsewhere(t: Tables, es: seq<Effect>, m: Id)
    requires forall e :: e in es ==> !About(e, m)
    ensures RowAt(Fold(t, es), m) == RowAt(t, m)
  {
    if es != [] {
      FoldElsewhere(t, es[..|es| - 1], m);
      assert es[|es| - 1] in es;
    }
  }

  /** A row with one statement about it becomes what that statement alone would make it. */
  lemma {:induction false} FoldAt(t: Tables, es: seq<Effect>, i: nat, m: Id)
    requires i < |es| && About(es[i], m) && forall j :: 0 <= j < |es| && j != i ==> !About(es[j], m)
    ensures RowAt(Fold(t, es), m) == RowAt(Step(t, es[i]), m)
    decreases |es|
  {
    var init := es[..|es| - 1];
    if i == |es| - 1 {
      FoldElsewhere(t, init, m);
    } else {
      FoldAt(t, init, i, m);
    }
  }

  predicate Proposes(e: Effect, m: Id, row: Row, above: int) {
    e.PutMember? && e.id == m && e.row.(identity := row.identity) == row && above < e.row.version
  }

  predicate Proposed(es: seq<Effect>, m: Id, row: Row, above: int) {
    exists e :: e in es && Proposes(e, m, row, above)
  }

  function ClaimsOf(es: seq<Effect>): set<Claim> {
    set e | e in es :: e.Claims()
  }

  /** Version determines state, and membership determines identity. */
  ghost predicate Coherent(cs: set<Claim>) {
    && (forall a, b :: a in cs && b in cs && a.MemberClaim? && b.MemberClaim? && a.id == b.id ==>
          a.identity == b.identity && (a.version == b.version ==> a.status == b.status))
    && (forall a, b :: a in cs && b in cs && a.TenantClaim? && b.TenantClaim? && a.id == b.id && a.pair == b.pair ==>
          a.tenantStatus == b.tenantStatus)
  }

  /** Only memberships nobody asserts are removed. */
  ghost predicate RemovalsHarmless(cs: set<Claim>) {
    forall a, b :: a in cs && b in cs && a.Removal? && b.MemberClaim? ==> a.id != b.id
  }

  /** The tables are the pointwise maximum of the claims: each row is one of the claims, and none of
      the claims about it is newer. */
  ghost predicate Settled(t: Tables, cs: set<Claim>) {
    && (forall m :: m in t.members ==> RowClaim(m, t.members[m]) in cs)
    && (forall k :: k in t.tenants ==> TenantClaim(k, t.tenants[k].status, t.tenants[k].pair) in cs)
    && (forall c :: c in cs ==> Reflects(t, c))
  }

  lemma {:induction false} StepSettles(t: Tables, e: Effect, cs: set<Claim>)
    requires Settled(t, cs)
    requires Coherent(cs + {e.Claims()}) && RemovalsHarmless(cs + {e.Claims()})
    ensures Settled(Step(t, e), cs + {e.Claims()})
  {
    var t', cs' := Step(t, e), cs + {e.Claims()};
    forall m | m in t'.members
      ensures RowClaim(m, t'.members[m]) in cs'
    {
      if e.PutMember? && e.id == m && m in t.members {
        assert RowClaim(m, t.members[m]) in cs' && e.Claims() in cs';
      }
    }
    forall c | c in cs'
      ensures Reflects(t', c)
    {
      if c in cs {
        assert e.Claims() in cs';
        StepKeepsReflected(t, e, c);
      }
    }
  }

  lemma {:induction false} FoldSettles(t: Tables, es: seq<Effect>, cs: set<Claim>)
    requires Settled(t, cs)
    requires Coherent(cs + ClaimsOf(es)) && RemovalsHarmless(cs + ClaimsOf(es))
    ensures Settled(Fold(t, es), cs + ClaimsOf(es))
  {
    if es == [] {
      assert cs + ClaimsOf(es) == cs;
    } else {
      var init, last := es[..|es| - 1], es[|es| - 1];
      assert es == init + [last];
      assert ClaimsOf(es) == ClaimsOf(init) + {last.Claims()};
      assert cs + ClaimsOf(init) <= cs + ClaimsOf(es);
      FoldSettles(t, init, cs);
      assert (cs + ClaimsOf(init)) + {last.Claims()} == cs + ClaimsOf(es);
      StepSettles(Fold(t, init), last, cs + ClaimsOf(init));
    }
  }

  /** Identity, status and versions: what two projections of the same claims agree on. */
  ghost predicate SameState(a: Tables, b: Tables) {
    && a.members.Keys == b.members.Keys
    && (forall m :: m in a.members ==> RowClaim(m, a.members[m]) == RowClaim(m, b.members[m]))
    && a.tenants.Keys == b.tenants.Keys
    && (forall k :: k in a.tenants ==>
          a.tenants[k].status == b.tenants[k].status && a.tenants[k].pair == b.tenants[k].pair)
  }

  /** There is only one pointwise maximum, so how it was reached cannot matter. */
  lemma {:induction false} SettledIsUnique(a: Tables, b: Tables, cs: set<Claim>)
    requires Settled(a, cs) && Settled(b, cs) && Coherent(cs)
    ensures SameState(a, b)
  {
    forall m | m in a.members || m in b.members
      ensures m in a.members && m in b.members && RowClaim(m, a.members[m]) == RowClaim(m, b.members[m])
    {
      if m in a.members { assert Reflects(b, RowClaim(m, a.members[m])); }
      if m in b.members { assert Reflects(a, RowClaim(m, b.members[m])); }
    }
    forall k | k in a.tenants || k in b.tenants
      ensures k in a.tenants && k in b.tenants
              && a.tenants[k].status == b.tenants[k].status && a.tenants[k].pair == b.tenants[k].pair
    {
      if k in a.tenants { assert Reflects(b, TenantClaim(k, a.tenants[k].status, a.tenants[k].pair)); }
      if k in b.tenants { assert Reflects(a, TenantClaim(k, b.tenants[k].status, b.tenants[k].pair)); }
    }
  }
}
