/** What the schema promises about its rows, held by every table a run can reach. */
module Integrity {
  import opened Wrappers
  import opened Model
  import opened Effects
  import opened Transactions
  import opened Runs

  predicate RowSound(m: Id, row: Row) {
    && m != NIL && row.identity.tenant != NIL && row.identity.principal != NIL && row.identity.workspace != Some(NIL)
    && row.version > 0 && row.appliedMark > 0
  }

  predicate TenantSound(k: Id, row: TenantRow) {
    k != NIL && row.status != "" && row.pair.security > 0 && row.pair.version > 0 && row.appliedMark > 0
  }

  predicate EffectSound(e: Effect) {
    match e
    case PutMember(id, row) => RowSound(id, row)
    case PutTenant(id, state) => TenantSound(id, state)
    case Remove(_) => true
  }

  ghost predicate TablesSound(t: Tables) {
    && (forall m :: m in t.members ==> RowSound(m, t.members[m]))
    && (forall k :: k in t.tenants ==> TenantSound(k, t.tenants[k]))
  }

  lemma {:induction false} FoldKeepsSound(t: Tables, es: seq<Effect>)
    requires TablesSound(t) && forall e :: e in es ==> EffectSound(e)
    ensures TablesSound(Fold(t, es))
  {
    if es != [] {
      FoldKeepsSound(t, es[..|es| - 1]);
      assert es[|es| - 1] in es;
    }
  }

  /** Nothing accepted proposes a row the schema would refuse, whichever of the four ways it came. */
  lemma {:induction false} AcceptedStatementsAreSound(a: Attempt)
    requires a.Accepted()
    ensures forall e :: e in a.Effects() ==> EffectSound(e)
  {
    var es := a.Effects();
    forall i | 0 <= i < |es|
      ensures EffectSound(es[i])
    {
      match a.input
      case Page(rows, mark, _) => assert rows[i / 2] in rows && es[i] == PageEffect(rows, i, mark, a.at);
      case Event(e) =>
        if e.etype.RepairReconciled? {
          assert e.data.repair.value.findings[i] in e.data.repair.value.findings;
        }
    }
  }

  /** Every row a run can reach meets the table's checks, names its membership, tenant and principal, and
      names no workspace rather than the nil one. */
  lemma {:induction false} EveryRowMeetsTheSchema(db: Database, run: seq<Attempt>)
    requires TablesSound(db.tables)
    ensures TablesSound(Run(db, run).tables)
  {
    if run != [] {
      EveryRowMeetsTheSchema(db, run[..|run| - 1]);
      var last := run[|run| - 1];
      if last.Accepted() {
        AcceptedStatementsAreSound(last);
        FoldKeepsSound(Run(db, run[..|run| - 1]).tables, last.Effects());
      }
    }
  }
}
