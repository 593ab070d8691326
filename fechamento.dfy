/** The closing balance of a cash register (`fechamento_do_caixa`) and the
    eight amount fields of the Caixa forms that feed it. */
module Fechamento {
  import opened Decimal
  import opened PyFloat
  import opened Currency

  /** The eight amounts of a Caixa, in the order of the table's columns. */
  datatype Amounts = Amounts(
    saldoInicial: real,
    valorCartaoCredito: real,
    valorCartaoDebito: real,
    valorIfood: real,
    valorDinheiro: real,
    valorFiado: real,
    saidasCaixa: real,
    valorAcrescimo: real)

  /** Names of the eight amounts. */
  datatype Field =
    | SaldoInicial | ValorCartaoCredito | ValorCartaoDebito | ValorIfood
    | ValorDinheiro | ValorFiado | SaidasCaixa | ValorAcrescimo

  const AllFields: seq<Field> :=
    [SaldoInicial, ValorCartaoCredito, ValorCartaoDebito, ValorIfood,
     ValorDinheiro, ValorFiado, SaidasCaixa, ValorAcrescimo]

  function Value(a: Amounts, f: Field): real {
    match f
    case SaldoInicial => a.saldoInicial
    case ValorCartaoCredito => a.valorCartaoCredito
    case ValorCartaoDebito => a.valorCartaoDebito
    case ValorIfood => a.valorIfood
    case ValorDinheiro => a.valorDinheiro
    case ValorFiado => a.valorFiado
    case SaidasCaixa => a.saidasCaixa
    case ValorAcrescimo => a.valorAcrescimo
  }

  /** `a` with the amount `f` replaced by `v`. */
  function WithValue(a: Amounts, f: Field, v: real): (b: Amounts)
    ensures Value(b, f) == v
    ensures forall g :: g != f ==> Value(b, g) == Value(a, g)
  {
    match f
    case SaldoInicial => a.(saldoInicial := v)
    case ValorCartaoCredito => a.(valorCartaoCredito := v)
    case ValorCartaoDebito => a.(valorCartaoDebito := v)
    case ValorIfood => a.(valorIfood := v)
    case ValorDinheiro => a.(valorDinheiro := v)
    case ValorFiado => a.(valorFiado := v)
    case SaidasCaixa => a.(saidasCaixa := v)
    case ValorAcrescimo => a.(valorAcrescimo := v)
  }

  /** `fechamento_do_caixa`: everything that came in, plus the surcharge,
      minus what was taken out of the register. */
  function FechamentoDoCaixa(a: Amounts): real {
    a.saldoInicial + a.valorCartaoCredito + a.valorCartaoDebito + a.valorIfood
      + a.valorDinheiro + a.valorFiado + a.valorAcrescimo - a.saidasCaixa
  }

  /** How an amount counts towards the balance: outflows negatively, every
      other amount positively. */
  function Weight(f: Field): real {
    if f == SaidasCaixa then -1.0 else 1.0
  }

  /** The weighted sum of the amounts named in `fs`. */
  function WeightedSum(a: Amounts, fs: seq<Field>): real {
    if fs == [] then 0.0 else WeightedSum(a, fs[..|fs| - 1]) + Weight(fs[|fs| - 1]) * Value(a, fs[|fs| - 1])
  }

  /** The balance is the weighted sum over all eight amounts. */
  lemma FechamentoIsWeightedSum(a: Amounts)
    ensures FechamentoDoCaixa(a) == WeightedSum(a, AllFields)
  {
    var fs := AllFields;
    assert fs[..0] == [];
    assert WeightedSum(a, fs[..1]) == a.saldoInicial by { assert fs[..1][..0] == fs[..0]; }
    assert WeightedSum(a, fs[..2]) == a.saldoInicial + a.valorCartaoCredito by { assert fs[..2][..1] == fs[..1]; }
    assert WeightedSum(a, fs[..3]) == WeightedSum(a, fs[..2]) + a.valorCartaoDebito by { assert fs[..3][..2] == fs[..2]; }
    assert WeightedSum(a, fs[..4]) == WeightedSum(a, fs[..3]) + a.valorIfood by { assert fs[..4][..3] == fs[..3]; }
    assert WeightedSum(a, fs[..5]) == WeightedSum(a, fs[..4]) + a.valorDinheiro by { assert fs[..5][..4] == fs[..4]; }
    assert WeightedSum(a, fs[..6]) == WeightedSum(a, fs[..5]) + a.valorFiado by { assert fs[..6][..5] == fs[..5]; }
    assert WeightedSum(a, fs[..7]) == WeightedSum(a, fs[..6]) - a.saidasCaixa by { assert fs[..7][..6] == fs[..6]; }
    assert WeightedSum(a, fs) == WeightedSum(a, fs[..7]) + a.valorAcrescimo by { assert fs[..7] == fs[..|fs| - 1]; }
  }

  /** Raising one amount by `x` moves the balance by exactly `x`: down for
      the outflows, up for every other amount. */
  lemma RaiseEffect(a: Amounts, f: Field, x: real)
    ensures FechamentoDoCaixa(WithValue(a, f, Value(a, f) + x))
      == FechamentoDoCaixa(a) + (if f == SaidasCaixa then -x else x)
  {
  }

  /** A register that opened with 100, took 50 by credit card, 20 by debit
      card and 30 in cash, paid out 10 and charged a 5 surcharge closes
      at 195. */
  lemma FechamentoExample()
    ensures FechamentoDoCaixa(Amounts(100.0, 50.0, 20.0, 0.0, 30.0, 0.0, 10.0, 5.0)) == 195.0
  {
  }

  /** The eight texts of a Caixa form, in Brazilian money notation. */
  datatype AmountTexts = AmountTexts(
    saldoInicial: string,
    valorCartaoCredito: string,
    valorCartaoDebito: string,
    valorIfood: string,
    valorDinheiro: string,
    valorFiado: string,
    saidasCaixa: string,
    valorAcrescimo: string)

  function FieldText(t: AmountTexts, f: Field): string {
    match f
    case SaldoInicial => t.saldoInicial
    case ValorCartaoCredito => t.valorCartaoCredito
    case ValorCartaoDebito => t.valorCartaoDebito
    case ValorIfood => t.valorIfood
    case ValorDinheiro => t.valorDinheiro
    case ValorFiado => t.valorFiado
    case SaidasCaixa => t.saidasCaixa
    case ValorAcrescimo => t.valorAcrescimo
  }

  /** The form read field by field, or `Unreadable` when one of the reads
      raises `ValueError` (is `Malformed`). */
  datatype Reading = Read(amounts: Amounts) | Unreadable

  /** Every text of the form read with `parse`. */
  function ReadWith(parse: string -> Number, t: AmountTexts): Reading {
    var n0, n1, n2, n3 := parse(t.saldoInicial), parse(t.valorCartaoCredito), parse(t.valorCartaoDebito), parse(t.valorIfood);
    var n4, n5, n6, n7 := parse(t.valorDinheiro), parse(t.valorFiado), parse(t.saidasCaixa), parse(t.valorAcrescimo);
    if n0.Finite? && n1.Finite? && n2.Finite? && n3.Finite? && n4.Finite? && n5.Finite? && n6.Finite? && n7.Finite?
    then Read(Amounts(n0.value, n1.value, n2.value, n3.value, n4.value, n5.value, n6.value, n7.value))
    else Unreadable
  }

  /** The form read with `parse_currency`, as the create and update buttons
      read it. */
  function ReadAmounts(t: AmountTexts): Reading {
    ReadWith(ParseCurrency, t)
  }

  /** The form is readable exactly when every field is, and then each
      amount is what its own text reads as. */
  lemma ReadWithFieldwise(parse: string -> Number, t: AmountTexts)
    ensures ReadWith(parse, t).Read? <==> forall f :: parse(FieldText(t, f)).Finite?
    ensures ReadWith(parse, t).Read? ==>
      forall f :: Value(ReadWith(parse, t).amounts, f) == parse(FieldText(t, f)).value
  {
    if !ReadWith(parse, t).Read? {
      var f :=
        if !parse(t.saldoInicial).Finite? then SaldoInicial
        else if !parse(t.valorCartaoCredito).Finite? then ValorCartaoCredito
        else if !parse(t.valorCartaoDebito).Finite? then ValorCartaoDebito
        else if !parse(t.valorIfood).Finite? then ValorIfood
        else if !parse(t.valorDinheiro).Finite? then ValorDinheiro
        else if !parse(t.valorFiado).Finite? then ValorFiado
        else if !parse(t.saidasCaixa).Finite? then SaidasCaixa
        else ValorAcrescimo;
      assert !parse(FieldText(t, f)).Finite?;
    }
  }

  /** The live "Fechamento do Caixa" line of the forms: the balance of the
      texts as typed, or 0 when one of them is not a number. */
  function PreviewWith(parse: string -> Number, t: AmountTexts): real {
    match ReadWith(parse, t)
    case Read(a) => FechamentoDoCaixa(a)
    case Unreadable => 0.0
  }

  /** The preview shows the balance of the amounts read whenever the form
      is readable. */
  predicate Agrees(r: Reading, preview: real) {
    r.Read? ==> preview == FechamentoDoCaixa(r.amounts)
  }

  lemma PreviewAgrees(parse: string -> Number, t: AmountTexts)
    ensures Agrees(ReadWith(parse, t), PreviewWith(parse, t))
  {
  }

  /** The preview the forms show, with `parse_currency` as the reader. */
  function Preview(t: AmountTexts): real {
    PreviewWith(ParseCurrency, t)
  }

  /** A single malformed field turns the preview into 0. */
  lemma PreviewOfMalformed(parse: string -> Number, t: AmountTexts, f: Field)
    requires parse(FieldText(t, f)) == Malformed
    ensures PreviewWith(parse, t) == 0.0
  {
    ReadWithFieldwise(parse, t);
  }

  /** With every field readable, the preview is the balance of the amounts
      read. */
  lemma PreviewOfReadable(parse: string -> Number, t: AmountTexts)
    requires forall f :: parse(FieldText(t, f)).Finite?
    ensures ReadWith(parse, t).Read?
    ensures PreviewWith(parse, t) == FechamentoDoCaixa(ReadWith(parse, t).amounts)
  {
    ReadWithFieldwise(parse, t);
  }

  /** A field holding "abc" makes the preview show 0. */
  lemma PreviewOfLetters(t: AmountTexts, f: Field)
    requires FieldText(t, f) == "abc"
    ensures Preview(t) == 0.0
  {
    LettersRejected();
    PreviewOfMalformed(ParseCurrency, t, f);
  }

  /** A field with two decimal commas, such as "12,,50", makes the preview
      show 0. */
  lemma PreviewOfTwoCommas(t: AmountTexts, f: Field, a: string, b: string, c: string)
    requires FieldText(t, f) == a + "," + b + "," + c
    ensures Preview(t) == 0.0
  {
    TwoCommasRejected(a, b, c);
    PreviewOfMalformed(ParseCurrency, t, f);
  }

  /** The update form's initial texts: every stored amount written with
      `format`. */
  function PrefillWith(format: real -> string, a: Amounts): AmountTexts {
    AmountTexts(
      format(a.saldoInicial),
      format(a.valorCartaoCredito),
      format(a.valorCartaoDebito),
      format(a.valorIfood),
      format(a.valorDinheiro),
      format(a.valorFiado),
      format(a.saidasCaixa),
      format(a.valorAcrescimo))
  }

  /** The update form's initial texts, written with `format_currency`. */
  function Prefill(a: Amounts): AmountTexts {
    PrefillWith(FormatCurrency, a)
  }

  /** Amounts kept to the cent. */
  predicate AllWholeCents(a: Amounts) {
    forall f :: WholeCents(Value(a, f))
  }

  /** When `parse` reads back what `format` writes for amounts kept to the
      cent, the prefilled form reads back as the stored amounts and its
      preview shows the stored balance. */
  lemma PrefillWithReadsBack(parse: string -> Number, format: real -> string, a: Amounts)
    requires forall v :: WholeCents(v) ==> parse(format(v)) == Finite(v)
    requires AllWholeCents(a)
    ensures ReadWith(parse, PrefillWith(format, a)) == Read(a)
    ensures PreviewWith(parse, PrefillWith(format, a)) == FechamentoDoCaixa(a)
  {
    var t := PrefillWith(format, a);
    forall f ensures parse(FieldText(t, f)) == Finite(Value(a, f)) {
      assert WholeCents(Value(a, f));
      assert FieldText(t, f) == format(Value(a, f));
    }
    ReadsBack(parse, t, a);
  }

  /** Reading back the prefilled update form gives the stored amounts, and
      its preview shows the stored balance. */
  lemma PrefillReadsBack(a: Amounts)
    requires AllWholeCents(a)
    ensures ReadAmounts(Prefill(a)) == Read(a)
    ensures Preview(Prefill(a)) == FechamentoDoCaixa(a)
  {
    forall v | WholeCents(v) ensures ParseCurrency(FormatCurrency(v)) == Finite(v) {
      RoundTrip(v);
    }
    PrefillWithReadsBack(ParseCurrency, FormatCurrency, a);
  }

  /** A form whose every text reads as the matching amount of `a` reads
      as `a`, and previews the balance of `a`. */
  lemma ReadsBack(parse: string -> Number, t: AmountTexts, a: Amounts)
    requires forall f :: parse(FieldText(t, f)) == Finite(Value(a, f))
    ensures ReadWith(parse, t) == Read(a)
    ensures PreviewWith(parse, t) == FechamentoDoCaixa(a)
  {
    assert parse(FieldText(t, SaldoInicial)) == Finite(a.saldoInicial);
    assert parse(FieldText(t, ValorCartaoCredito)) == Finite(a.valorCartaoCredito);
    assert parse(FieldText(t, ValorCartaoDebito)) == Finite(a.valorCartaoDebito);
    assert parse(FieldText(t, ValorIfood)) == Finite(a.valorIfood);
    assert parse(FieldText(t, ValorDinheiro)) == Finite(a.valorDinheiro);
    assert parse(FieldText(t, ValorFiado)) == Finite(a.valorFiado);
    assert parse(FieldText(t, SaidasCaixa)) == Finite(a.saidasCaixa);
    assert parse(FieldText(t, ValorAcrescimo)) == Finite(a.valorAcrescimo);
  }

}
