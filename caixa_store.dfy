/** The `caixas` table and the create, update and delete paths of the Caixa
    screens, with the table as a map from id to row. */
module CaixaStore {
  import opened Outcomes
  import opened Fechamento
  import opened Currency

  /** A calendar date, stored as given. */
  datatype Date = Date(year: int, month: int, day: int)

  /** One row of `caixas`: the label `caixa_aberto` (unique in the table),
      the date, the eight amounts and the stored closing balance. */
  datatype Caixa = Caixa(caixaAberto: string, data: Date, amounts: Amounts, fechamentoDoCaixa: real)

  type Rows = map<nat, Caixa>

  /** The stored balance is the balance of the stored amounts. */
  predicate Balanced(c: Caixa) {
    c.fechamentoDoCaixa == FechamentoDoCaixa(c.amounts)
  }

  /** Some row of `rows` carries the label `caixaAberto`. */
  predicate LabelUsed(rows: Rows, caixaAberto: string) {
    exists id :: id in rows && rows[id].caixaAberto == caixaAberto
  }

  /** No two rows share a label (the `unique=True` column). */
  predicate UniqueLabels(rows: Rows) {
    forall i, j :: i in rows && j in rows && rows[i].caixaAberto == rows[j].caixaAberto ==> i == j
  }

  /** What every reachable table satisfies. */
  predicate RowsValid(rows: Rows) {
    && UniqueLabels(rows)
    && forall id :: id in rows ==> Balanced(rows[id])
  }

  /** The row `create_caixa` builds: its balance is computed from the
      amounts it is given. */
  function NewCaixa(caixaAberto: string, data: Date, a: Amounts): (c: Caixa)
    ensures Balanced(c)
  {
    Caixa(caixaAberto, data, a, FechamentoDoCaixa(a))
  }

  /** The table after `create_caixa` commits a row under the fresh id `id`;
      the commit fails when the label is taken. */
  function Created(rows: Rows, id: nat, caixaAberto: string, data: Date, a: Amounts): Rows {
    if LabelUsed(rows, caixaAberto) then rows else rows[id := NewCaixa(caixaAberto, data, a)]
  }

  /** Creating keeps the table valid and adds exactly the new row, or
      changes nothing when the label is taken. */
  lemma CreatedSpec(rows: Rows, id: nat, caixaAberto: string, data: Date, a: Amounts)
    requires RowsValid(rows) && id !in rows
    ensures RowsValid(Created(rows, id, caixaAberto, data, a))
    ensures LabelUsed(rows, caixaAberto) ==> Created(rows, id, caixaAberto, data, a) == rows
    ensures !LabelUsed(rows, caixaAberto) ==>
      && Created(rows, id, caixaAberto, data, a).Keys == rows.Keys + {id}
      && Created(rows, id, caixaAberto, data, a)[id] == NewCaixa(caixaAberto, data, a)
      && forall k :: k in rows ==> Created(rows, id, caixaAberto, data, a)[k] == rows[k]
  {
    if !LabelUsed(rows, caixaAberto) {
      var r := Created(rows, id, caixaAberto, data, a);
      assert forall k :: k in rows ==> rows[k].caixaAberto != caixaAberto;
    }
  }

  /** The verdict of the Update button (app.py:229-241): a missing id is
      reported first, then a text that is not a number, then a label that
      another row already carries. */
  function UpdateStatus(rows: Rows, id: nat, caixaAberto: string, reading: Reading): Status {
    if id !in rows then Failed(NotFound)
    else if reading.Unreadable? then Failed(ValueError)
    else if LabelUsed(rows - {id}, caixaAberto) then Failed(DuplicateKey)
    else Done
  }

  /** The table after the Update button: on success the row is replaced by
      the caixaAberto, the date, the amounts read and the previewed balance; on
      any failure nothing is committed. */
  function Updated(rows: Rows, id: nat, caixaAberto: string, data: Date, reading: Reading, preview: real): Rows {
    if UpdateStatus(rows, id, caixaAberto, reading) == Done
    then rows[id := Caixa(caixaAberto, data, reading.amounts, preview)]
    else rows
  }

  /** A failed update leaves the table as it was; an update of a missing
      id fails with `NotFound`. */
  lemma UpdateFailureKeepsRows(rows: Rows, id: nat, caixaAberto: string, data: Date, reading: Reading, preview: real)
    ensures id !in rows ==> UpdateStatus(rows, id, caixaAberto, reading) == Failed(NotFound)
    ensures UpdateStatus(rows, id, caixaAberto, reading) != Done ==> Updated(rows, id, caixaAberto, data, reading, preview) == rows
  {
  }

  /** A successful update replaces that row only, with the balance of the
      amounts it stores, and keeps the table valid. */
  lemma UpdateSpec(rows: Rows, id: nat, caixaAberto: string, data: Date, reading: Reading, preview: real)
    requires RowsValid(rows)
    requires Agrees(reading, preview)
    requires UpdateStatus(rows, id, caixaAberto, reading) == Done
    ensures var r := Updated(rows, id, caixaAberto, data, reading, preview);
      && r.Keys == rows.Keys
      && r[id] == NewCaixa(caixaAberto, data, reading.amounts)
      && (forall k :: k in rows && k != id ==> r[k] == rows[k])
      && RowsValid(r)
  {
    var r := Updated(rows, id, caixaAberto, data, reading, preview);
    forall k | k in rows && k != id ensures rows[k].caixaAberto != caixaAberto {
      assert k in rows - {id};
    }
  }

  /** Committing a row's own label, date and amounts, with its own
      balance, leaves the table as it was. */
  lemma SameRowKeepsRows(rows: Rows, id: nat, reading: Reading, preview: real)
    requires RowsValid(rows) && id in rows
    requires reading == Read(rows[id].amounts) && preview == rows[id].fechamentoDoCaixa
    ensures UpdateStatus(rows, id, rows[id].caixaAberto, reading) == Done
    ensures Updated(rows, id, rows[id].caixaAberto, rows[id].data, reading, preview) == rows
  {
    var c := rows[id];
    assert !LabelUsed(rows - {id}, c.caixaAberto);
    assert rows[id := c] == rows;
  }

  /** Pressing Update on the prefilled form without editing it leaves the
      table as it was, when the stored amounts are kept to the cent. */
  lemma UnchangedResubmit(rows: Rows, id: nat)
    requires RowsValid(rows) && id in rows && AllWholeCents(rows[id].amounts)
    ensures var c := rows[id];
      var t := Prefill(c.amounts);
      && UpdateStatus(rows, id, c.caixaAberto, ReadAmounts(t)) == Done
      && Updated(rows, id, c.caixaAberto, c.data, ReadAmounts(t), Preview(t)) == rows
  {
    var c := rows[id];
    PrefillReadsBack(c.amounts);
    SameRowKeepsRows(rows, id, ReadAmounts(Prefill(c.amounts)), Preview(Prefill(c.amounts)));
  }

  /** The verdict of the Delete button (app.py:250-257). */
  function DeleteStatus(rows: Rows, id: nat): Status {
    if id in rows then Done else Failed(NotFound)
  }

  /** The table after the Delete button. */
  function Deleted(rows: Rows, id: nat): Rows {
    if id in rows then rows - {id} else rows
  }

  /** Delete removes the matched row and no other, and keeps the table
      valid; a missing id fails with `NotFound` and changes nothing. */
  lemma DeleteSpec(rows: Rows, id: nat)
    requires RowsValid(rows)
    ensures DeleteStatus(rows, id) == Done <==> id in rows
    ensures Deleted(rows, id).Keys == rows.Keys - {id}
    ensures forall k :: k in Deleted(rows, id) ==> Deleted(rows, id)[k] == rows[k]
    ensures RowsValid(Deleted(rows, id))
  {
  }

  /** The `caixas` table. Ids are handed out by the store and never
      reused. */
  class CaixaTable {
    var rows: Rows
    var nextId: nat

    ghost predicate Valid()
      reads this
    {
      && RowsValid(rows)
      && 1 <= nextId
      && forall id :: id in rows ==> 1 <= id < nextId
    }

    constructor ()
      ensures Valid() && rows == map[]
    {
      rows := map[];
      nextId := 1;
    }

    /** `create_caixa` (app.py:68-86): the new row gets a fresh id and the
        closing balance of its amounts. */
    method Create(caixaAberto: string, data: Date, a: Amounts) returns (r: Result<nat>)
      requires Valid()
      modifies this
      ensures Valid()
      ensures LabelUsed(old(rows), caixaAberto) ==> r == Err(DuplicateKey) && rows == old(rows) && nextId == old(nextId)
      ensures !LabelUsed(old(rows), caixaAberto) ==>
        r.Ok? && r.value !in old(rows) && rows == Created(old(rows), r.value, caixaAberto, data, a)
      ensures r.Ok? ==> r.value == old(nextId) && nextId == old(nextId) + 1
    {
      if LabelUsed(rows, caixaAberto) {
        return Err(DuplicateKey);
      }
      var id := nextId;
      CreatedSpec(rows, id, caixaAberto, data, a);
      rows := Created(rows, id, caixaAberto, data, a);
      nextId := nextId + 1;
      r := Ok(id);
    }

    /** The Create button (app.py:187-199): every text is read with
        `parse_currency` before `create_caixa` is called, so a malformed
        text stores nothing. */
    method SubmitCreate(caixaAberto: string, data: Date, t: AmountTexts) returns (r: Result<nat>)
      requires Valid()
      modifies this
      ensures Valid()
      ensures ReadAmounts(t).Unreadable? ==> r == Err(ValueError) && rows == old(rows) && nextId == old(nextId)
      ensures ReadAmounts(t).Read? && LabelUsed(old(rows), caixaAberto) ==> r == Err(DuplicateKey) && rows == old(rows) && nextId == old(nextId)
      ensures ReadAmounts(t).Read? && !LabelUsed(old(rows), caixaAberto) ==>
        r.Ok? && r.value !in old(rows) && rows == Created(old(rows), r.value, caixaAberto, data, ReadAmounts(t).amounts)
    {
      var reading := ReadAmounts(t);
      match reading
      case Unreadable =>
        r := Err(ValueError);
      case Read(a) =>
        r := Create(caixaAberto, data, a);
    }

    /** The Update screen (app.py:204-244): the row is looked up by id, the
        texts are read and previewed, and the edited row is committed. */
    method Update(id: nat, caixaAberto: string, data: Date, t: AmountTexts) returns (s: Status)
      requires Valid()
      modifies this
      ensures Valid()
      ensures s == UpdateStatus(old(rows), id, caixaAberto, ReadAmounts(t))
      ensures rows == Updated(old(rows), id, caixaAberto, data, ReadAmounts(t), Preview(t))
      ensures nextId == old(nextId)
      ensures s == Done ==> rows[id] == NewCaixa(caixaAberto, data, ReadAmounts(t).amounts)
    {
      var reading, preview := ReadAmounts(t), Preview(t);
      PreviewAgrees(ParseCurrency, t);
      s := UpdateStatus(rows, id, caixaAberto, reading);
      if s == Done {
        UpdateSpec(rows, id, caixaAberto, data, reading, preview);
      }
      rows := Updated(rows, id, caixaAberto, data, reading, preview);
    }

    /** The Delete screen (app.py:246-257). */
    method Delete(id: nat) returns (s: Status)
      requires Valid()
      modifies this
      ensures Valid()
      ensures s == DeleteStatus(old(rows), id)
      ensures rows == Deleted(old(rows), id)
      ensures nextId == old(nextId)
    {
      DeleteSpec(rows, id);
      s := DeleteStatus(rows, id);
      rows := Deleted(rows, id);
    }
  }
}
