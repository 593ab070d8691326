# Fechamento de caixa — a verified model of the Caixa core

`fechamento-app/app.py` is a small Streamlit application in which a shop
records the closing of a cash register (a *Caixa*): the opening balance, the
takings by credit card, debit card, iFood, cash and store credit (*fiado*),
the cash taken out (*saídas*) and a surcharge (*acréscimo*). The application
computes the closing balance (*fechamento do caixa*) from those eight
amounts, shows it live while the form is edited, and stores it with the row.
Amounts are typed and shown in Brazilian notation (`1.234,50`) by the two
helpers `format_currency` and `parse_currency`.

This project models that core in Dafny:

- `text.dfy` (`Text`) — the character-level `str.replace` used by both
  helpers: replacing one character by another, and deleting one.
- `decimal.dfy` (`Decimal`) — decimal numerals of natural numbers.
- `pyformat.dfy` (`PyFormat`) — Python's `f"{x:,.2f}"`: round half to even
  to cents, `,` between groups of three integer digits, `.` before two
  fraction digits, `-` for negative amounts.
- `pyfloat.dfy` (`PyFloat`, `PyFloatFacts`) — Python's `float(text)` on
  decimal literals (surrounding whitespace, sign, digits with `_`, an
  optional fraction and exponent), with a `Malformed` result where Python
  raises `ValueError`, and the facts about it the helpers need.
- `currency.dfy` (`Currency`) — `format_currency` and `parse_currency`, and
  what they promise: the separators are swapped, the output layout, the
  round trip for amounts kept to the cent, and the texts they refuse.
- `fechamento.dfy` (`Fechamento`) — the eight amounts, the closing-balance
  formula, the form read field by field, the live preview with its
  fall-back to 0, and the update form prefilled with `format_currency`.
- `caixa_store.dfy` (`CaixaStore`) — the `caixas` table as a map from id
  to row, the create/update/delete paths as functions on that map with
  their properties, and a `CaixaTable` class whose methods change the table
  in place as the Create, Update and Delete screens do.

Money is modelled with exact `real` numbers; the results of `float` are the
exact decimal values their texts spell.

## Model

| member | source | states |
|---|---|---|
| PyFormat.RoundHalfEven | fechamento-app/app.py:137 | the result is within 0.5 of its argument, ties go to the even neighbour, integers are kept and non-negative arguments give non-negative results |
| PyFormat.Cents | fechamento-app/app.py:137 | the number of cents `.2f` shows lies within half a cent of the magnitude of the amount |
| PyFormat.Grouped | fechamento-app/app.py:137 | the `,` grouping of a whole number holds only digits and separators, groups three digits from the right, and reads back, separators removed, as that number |
| PyFormat.GroupedRelabel | fechamento-app/app.py:137 | the separator only labels the layout: relabelling it in the output gives the output for the other separator |
| PyFormat.FormatFixed2 | fechamento-app/app.py:137 | `,.2f` output is made of digits, `,`, `.` and `-` only (so never the placeholder `v`) |
| PyFloat.ReadFloat | fechamento-app/app.py:140 | Python's `float(text)` on decimal literals, `Malformed` where it raises `ValueError`; its properties are carried by PyFloatFacts.ReadFixedPoint, PyFloatFacts.ReadNegativeFixedPoint, PyFloatFacts.TwoPoints and PyFloatFacts.NoDigitRejected |
| PyFloat.TrimStart | fechamento-app/app.py:140 | `float` drops leading whitespace: the result is no longer, does not start with a space, and leaves text without one unchanged |
| PyFloat.TrimEnd | fechamento-app/app.py:140 | the same for trailing whitespace |
| PyFloat.DigitPartValue | fechamento-app/app.py:140 | a digit part denotes a number below ten to the count of its digits |
| PyFloat.Fraction | fechamento-app/app.py:140 | the digits after the point add a value in [0, 1) |
| PyFloatFacts.ReadFixedPoint | fechamento-app/app.py:140 | `float` reads digits, a point and digits as the decimal number they spell |
| PyFloatFacts.ReadNegativeFixedPoint | fechamento-app/app.py:140 | `float` reads `-` before such a text as the negated number |
| PyFloatFacts.TwoPoints | fechamento-app/app.py:140 | any text with two decimal points anywhere raises `ValueError` |
| PyFloatFacts.NoDigitRejected | fechamento-app/app.py:140 | a text without a digit and without the letters i, I, n, N (so not an `inf` or `nan` spelling) raises `ValueError` |
| PyFloatFacts.StripKeepsPoints | fechamento-app/app.py:140 | stripping whitespace keeps both points of a text, shifted by the spaces removed |
| Currency.FormatCurrency | fechamento-app/app.py:136-137 | `format_currency`; its properties are carried by Currency.FormatSwapsSeparators, Currency.FormatLayout, Currency.FormatShape and Currency.FormatThenParse |
| Currency.ParseCurrency | fechamento-app/app.py:139-140 | `parse_currency`; its properties are carried by Currency.ParseIgnoresDots, Currency.RoundTrip, Currency.TwoCommasRejected and Currency.NoDigitsRejected |
| Currency.SwapChainSwaps | fechamento-app/app.py:137 | on text without `v`, the three `replace` calls swap `,` and `.` character by character and keep everything else and the length |
| Currency.FormatSwapsSeparators | fechamento-app/app.py:137 | `format_currency(x)` is `f"{x:,.2f}"` with `,` and `.` swapped and no other change |
| Currency.SwapChainGrouped | fechamento-app/app.py:137 | the swap turns the `,`-grouped whole part into the `.`-grouped one |
| Currency.FormatLayout | fechamento-app/app.py:136-137 | `format_currency(x)` is the sign, the whole cents grouped by `.`, a `,` and exactly two cents digits |
| Currency.FormatShape | fechamento-app/app.py:136-137 | the output starts with `-` exactly for negative amounts, ends with `,` and two digits, and groups the thousands by `.` |
| Currency.ParseIgnoresDots | fechamento-app/app.py:139-140 | deleting `.` before `parse_currency` changes nothing: it deletes them itself |
| Currency.ParseIgnoresGrouping | fechamento-app/app.py:139-140 | a grouping `.` inserted anywhere does not change what `parse_currency` reads |
| Currency.NormalizeLayout | fechamento-app/app.py:140 | for `sign whole , cents`, `float` is handed `sign whole-without-points . cents` |
| Currency.ParseNormalizedFixedPoint | fechamento-app/app.py:140 | text that normalises to a signed `d.f` is read as that signed decimal |
| Currency.FormatThenParse | fechamento-app/app.py:136-140 | `parse_currency(format_currency(x))` is `x` rounded to whole cents (half to even) |
| Currency.RoundedWholeCents | fechamento-app/app.py:137 | rounding to cents keeps an amount with at most two decimals |
| Currency.RoundTrip | fechamento-app/app.py:136-140 | an amount with at most two decimals survives `format_currency` then `parse_currency` exactly |
| Currency.CentsAreWholeCents | fechamento-app/app.py:140 | every whole number of cents has at most two decimals |
| Currency.NormalizeConcat | fechamento-app/app.py:140 | the normalisation `parse_currency` applies works character by character |
| Currency.TwoCommasRejected | fechamento-app/app.py:140 | any text with two commas (such as `12,,50`) raises `ValueError` |
| Currency.NoDigitsRejected | fechamento-app/app.py:140 | any text without a digit and without the letters i, I, n, N raises `ValueError` |
| Currency.LettersRejected | fechamento-app/app.py:140 | `parse_currency("abc")` raises `ValueError` |
| Currency.EmptyRejected | fechamento-app/app.py:140 | `parse_currency("")` raises `ValueError` |
| Fechamento.FechamentoDoCaixa | fechamento-app/app.py:69 | the closing-balance formula; its meaning is carried by Fechamento.FechamentoIsWeightedSum and Fechamento.RaiseEffect |
| Fechamento.ReadWith | fechamento-app/app.py:191-198 | the eight texts of the form read one by one, unreadable when one raises; carried by Fechamento.ReadWithFieldwise |
| Fechamento.PreviewWith | fechamento-app/app.py:180-183 | the live balance line: the formula of the amounts read, or 0 when a text raises; carried by Fechamento.PreviewOfReadable and Fechamento.PreviewOfMalformed |
| Fechamento.Preview | fechamento-app/app.py:222-225 | the live balance line with `parse_currency` as the reader; carried by Fechamento.PreviewOfLetters and Fechamento.PreviewOfTwoCommas |
| Fechamento.PrefillWith | fechamento-app/app.py:212-219 | the update form's initial texts, every stored amount written by the formatter; carried by Fechamento.PrefillReadsBack |
| Fechamento.FechamentoIsWeightedSum | fechamento-app/app.py:69 | the closing balance counts every amount with weight +1 except the outflows, which count -1 |
| Fechamento.RaiseEffect | fechamento-app/app.py:69 | raising the outflows by x lowers the balance by x; raising any other amount by x raises it by x |
| Fechamento.FechamentoExample | fechamento-app/app.py:69 | 100 + 50 + 20 + 0 + 30 + 0 + 5 - 10 closes at 195 |
| Fechamento.ReadWithFieldwise | fechamento-app/app.py:190-199 | the form is readable exactly when each of its eight texts is, and then each amount is what its text reads as |
| Fechamento.PreviewOfMalformed | fechamento-app/app.py:180-183 | one text raising `ValueError` turns the preview into 0 |
| Fechamento.PreviewOfReadable | fechamento-app/app.py:180-181 | with every text readable, the preview is the balance of the amounts read |
| Fechamento.PreviewOfLetters | fechamento-app/app.py:222-225 | a field holding `abc` makes the preview 0 |
| Fechamento.PreviewOfTwoCommas | fechamento-app/app.py:222-225 | a field with two commas, such as `12,,50`, makes the preview 0 |
| Fechamento.ReadsBack | fechamento-app/app.py:232-240 | texts that each read as the matching amount read as those amounts, and preview their balance |
| Fechamento.PrefillWithReadsBack | fechamento-app/app.py:212-225 | when the reader inverts the writer on amounts kept to the cent, the prefilled form reads back as the stored amounts |
| Fechamento.PrefillReadsBack | fechamento-app/app.py:212-240 | the update form prefilled with `format_currency` reads back, with `parse_currency`, as the stored amounts, and previews the stored balance |
| CaixaStore.Created | fechamento-app/app.py:68-86 | the table after `create_caixa`; carried by CaixaStore.CreatedSpec |
| CaixaStore.UpdateStatus | fechamento-app/app.py:204-244 | the verdict of the Update button: not found, then `ValueError`, then `DuplicateKey`, else done; carried by CaixaStore.UpdateFailureKeepsRows and CaixaStore.UpdateSpec |
| CaixaStore.Updated | fechamento-app/app.py:229-241 | the table after the Update button; carried by CaixaStore.UpdateFailureKeepsRows and CaixaStore.UpdateSpec |
| CaixaStore.DeleteStatus | fechamento-app/app.py:250-257 | the verdict of the Delete button; carried by CaixaStore.DeleteSpec |
| CaixaStore.Deleted | fechamento-app/app.py:250-257 | the table after the Delete button; carried by CaixaStore.DeleteSpec |
| CaixaStore.NewCaixa | fechamento-app/app.py:68-81 | the row `create_caixa` builds stores the balance of its own amounts |
| CaixaStore.CreatedSpec | fechamento-app/app.py:68-86 | creating adds exactly one row, under the new id, with the computed balance, leaving the others alone, and keeps labels unique and balances right; a taken label (the `unique=True` column at app.py line 20) changes nothing |
| CaixaStore.UpdateFailureKeepsRows | fechamento-app/app.py:207-244 | updating an absent id reports not found; any failed update leaves the table as it was |
| CaixaStore.UpdateSpec | fechamento-app/app.py:229-241 | a successful update keeps the ids, replaces that row by the edited one with the balance of its amounts, leaves every other row alone and keeps the table valid |
| CaixaStore.SameRowKeepsRows | fechamento-app/app.py:229-241 | committing a row's own label, date, amounts and balance succeeds and leaves the table as it was |
| CaixaStore.UnchangedResubmit | fechamento-app/app.py:210-241 | pressing Update on the untouched prefilled form succeeds and leaves the table as it was, for amounts kept to the cent |
| CaixaStore.DeleteSpec | fechamento-app/app.py:246-257 | delete succeeds exactly when the id is present, removes that row only, keeps the others unchanged and keeps the table valid |
| CaixaStore.CaixaTable.constructor | fechamento-app/app.py:17-30 | the table starts empty and valid |
| CaixaStore.CaixaTable.Create | fechamento-app/app.py:68-86 | a taken label fails with `DuplicateKey` and changes nothing; otherwise the row gets a fresh id and the computed balance |
| CaixaStore.CaixaTable.SubmitCreate | fechamento-app/app.py:187-199 | a malformed text fails with `ValueError` before anything is stored; otherwise it is `create_caixa` on the amounts read |
| CaixaStore.CaixaTable.Update | fechamento-app/app.py:204-244 | the verdict is not found, `ValueError` or `DuplicateKey` in that order, else done; only on success the row becomes the edited one with the previewed balance, which is the balance of its amounts |
| CaixaStore.CaixaTable.Delete | fechamento-app/app.py:246-257 | the row with that id is removed, or not found is reported and nothing changes |
| Text.ReplaceAll | fechamento-app/app.py:137 | one-character `str.replace`, length kept; carried by Text.ReplaceAllPointwise and Text.ReplaceAllConcat |
| Text.RemoveAll | fechamento-app/app.py:140 | `str.replace(c, "")`; carried by Text.RemoveAllRemoves, Text.RemoveAllKeeps and Text.RemoveAllConcat |
| Text.RemoveAllKeeps | fechamento-app/app.py:140 | deleting a character keeps only characters of the text, and never the deleted one |
| Text.ReplaceAllPointwise | fechamento-app/app.py:137 | `replace` of one character by another changes exactly those characters, keeping the length |
| Text.RemoveAllRemoves | fechamento-app/app.py:140 | `replace(".", "")` leaves no `.` behind |
| Text.RemoveAllIdempotent | fechamento-app/app.py:140 | deleting the points twice is deleting them once |
| Text.RemoveAllConcat | fechamento-app/app.py:140 | deleting a character works piece by piece |
| Text.ReplaceAllConcat | fechamento-app/app.py:137 | replacing a character works piece by piece |

## Left out

- The Streamlit interface (sidebar menus, widgets, `session_state`, success
  and error banners, `format_currency` of the preview) is not modelled; a
  screen is modelled as the operation its button triggers, with the form's
  texts as parameters.
- The SQLAlchemy session is not modelled: a commit is the replacement of
  the table map, and a failed commit changes nothing. When `float` raises in
  the middle of the Update button the Python code has already assigned the
  label and date to the session's object; the model commits nothing and
  does not model that dirty session state.
- Ids come from a counter and are never reused; SQLite's rowid can reuse
  the largest id after it is deleted.
- Deleting a Caixa does not model its dependent movements and card
  settlements (foreign keys).
- `get_caixas` and the List screen only read the table and are not
  modelled; neither is the CRUD of the other three entities (credit
  operators, card settlements, movements).
- Amounts are exact reals, not binary floating point: the rounding of
  `float` to the nearest double and of the formula's additions, and the
  negative zero that `,.2f` prints as `-0.00`, are not modelled.
- PyFloat.ReadFloat: accepts decimal literals only. Python's `float` also
  accepts `inf`, `infinity` and `nan` spellings (in any case) and Unicode
  digits and whitespace; the model reads these as malformed, which is why
  the letters i, I, n and N are excluded in PyFloatFacts.NoDigitRejected
  and Currency.NoDigitsRejected. A literal too large for a double, such as
  `1e400`, is infinity in Python and its exact finite value in the model.
- Currency.RoundTrip: holds for amounts with at most two decimals; other
  amounts come back rounded to the cent (Currency.FormatThenParse).
- Dates are kept as given (year, month, day), and `datetime.now()` as the
  default date is left out.
- The default `"0,00"` texts of the Create form are not proved to read as
  zero.
- The eight field assignments of the Update button happen one by one in
  Python; the model replaces the row in one step, which gives the same
  committed row.
- Label uniqueness is enforced by the `unique=True` column of `caixas`; the
  model reports the storage engine's refusal as `DuplicateKey` instead of
  an exception from the commit.
- Fechamento.ReadWith, Fechamento.PreviewWith and Fechamento.PrefillWith
  are stated for any reader and writer, and then used with
  `parse_currency` and `format_currency`.
