# Exchange-operation simulator: verified model of its logic

`cambio.py` is a small web page that simulates a foreign-exchange operation.
The user gives an exchange rate (BRL per USD), an effective annual interest rate
in percent, a number of calendar days and a principal in USD. The page
validates these four inputs and reports one message for each rule that fails.
If every rule holds, it converts the annual rate to a daily rate and compounds
the principal daily. It then converts the amount to BRL and shows the figures
in Brazilian number style (`R$ 1.234,56`).

This project models the three pieces of that file that are logic rather than
page rendering:

- `BrFormat` (`br_format.dfy`): the separator-swap chain
  `.replace(",", "X").replace(".", ",").replace("X", ".")`, and `brl` and `pct`
  built from it. Python's formatter `f"{v:,.Nf}"` is a parameter
  `fmt: (real, nat) -> string`. It is never interpreted, so every statement
  holds for any formatter.
- `Finance` (`finance.dfy`): `montante_por_dias`, that is `vp * (1 + i_dia) ** dias`,
  over `real`, with a recursive power over `nat`.
- `Operation` (`operation.dfy`): the "Calcular VALOR FINAL" handler.
  `CollectErrors` builds the error list by appending, one `if` per rule, and is
  proved equal to a filter of the four rules in checking order. `Calculate`
  stops on a non-empty list. Otherwise it computes `taxa_aa = pct / 100`, the
  daily rate, the amount and the final value. The annual-to-daily conversion
  `taxa_anual_para_diaria` is a parameter `dailyRateOf: real -> real`.
  `Render` gives the four texts of the result panel.

The handler rejects only a negative principal (`valor_usd < 0`,
cambio.py:126), so a principal of 0 passes (`ZeroPrincipalAccepted`) and the
input `(0, -1, -5, 0)` yields three messages, not four
(`ThreeViolationsScenario`).

## Model

| member | source | states |
|---|---|---|
| `BrFormat.Replace` | cambio.py:19 | single-character `str.replace`: same length, and each position holds `to` where the input held `from`, and the input character everywhere else |
| `BrFormat.SwapChain` | cambio.py:19 | the three chained replaces keep the length. Each character is mapped independently: `,` and `X` become `.`, `.` becomes `,`, all others are unchanged |
| `BrFormat.ChainIsSwap` | cambio.py:19 | on an `X`-free string the chain equals the simultaneous swap of `,` and `.` (an independent reference definition) |
| `BrFormat.ChainDiffersOnPlaceholder` | cambio.py:19 | the `X`-free hypothesis is needed: on `"X"` the chain gives `"."`, while the swap keeps `"X"` |
| `BrFormat.ChainKeepsPlaceholderFree` | cambio.py:24 | the chain maps `X`-free strings to `X`-free strings |
| `BrFormat.ChainInvolution` | cambio.py:24 | applying the chain twice to an `X`-free string gives back the original |
| `BrFormat.ChainAppend` | cambio.py:23-24 | the chain distributes over concatenation, so the `%` that `pct` formats inside the string is left in place |
| `BrFormat.BrDecimal` | cambio.py:147-149 | the inline chain on `f"{v:,.Nf}"` keeps the formatter output's length and, on `X`-free output, is the swap of that output |
| `BrFormat.Brl` | cambio.py:16-19 | `brl(v)` starts with `R$ `, is 3 characters longer than the 2-decimal rendering, and is `"R$ "` followed by the swapped rendering |
| `BrFormat.Pct` | cambio.py:21-24 | `pct(v, d)` renders `v * 100` (not `v`) with `d` decimals and ends in `%`. It is the Brazilian-style rendering of `v * 100` followed by `%` |
| `Finance.Pow` | cambio.py:38 | Python's `**` with an integer exponent: `b ** 0 == 1`, `1 ** n == 1`, and a positive base gives a positive power |
| `Finance.PowAtLeastOne` | cambio.py:38 | `b ** n >= 1` when `b >= 1` |
| `Finance.PowMonotone` | cambio.py:38 | `b ** m <= b ** n` for `m <= n` when `b >= 1` |
| `Finance.PowAdd` | cambio.py:38 | `b ** (m + n) == b ** m * b ** n` |
| `Finance.AmountAfterDays` | cambio.py:36-38 | `montante_por_dias(vp, i_dia, dias) = vp * (1 + i_dia) ** dias`: no days or a zero daily rate leaves the principal unchanged |
| `Finance.AmountAfterNoDays` | cambio.py:36-38 | `montante_por_dias(vp, i, 0) == vp` |
| `Finance.AmountNextDay` | cambio.py:36-38 | `montante_por_dias(vp, i, d + 1) == montante_por_dias(vp, i, d) * (1 + i)` |
| `Finance.AmountSplit` | cambio.py:36-38 | compounding `m` days and then `n` more days equals compounding `m + n` days |
| `Finance.AmountMonotoneInDays` | cambio.py:36-38 | with `vp >= 0` and `i_dia >= 0`, the amount never decreases as the day count grows |
| `Finance.AmountAtLeastPrincipal` | cambio.py:36-38 | with `vp >= 0` and `i_dia >= 0`, the amount is at least `vp` |
| `Finance.AmountPositive` | cambio.py:36-38 | a positive principal stays positive for every daily rate above -1 |
| `Operation.Holds` | cambio.py:120-127 | the four conditions the handler tests: exchange rate `> 0`, annual rate `>= 0`, days `>= 0`, principal `>= 0` (each rule fails exactly when its `if` fires) |
| `Operation.Message` | cambio.py:121-127 | the four error messages, character for character |
| `Operation.Violated` | cambio.py:119-127 | the filtered list is no longer than the list of rules. A rule is in it exactly when it is one of the rules and the input violates it |
| `Operation.ErrorMessages` | cambio.py:119-129 | the error list is empty exactly when all four rules hold, and otherwise holds the message of each violated rule, in checking order |
| `Operation.ErrorMessagesUnfold` | cambio.py:119-127 | the error list is the concatenation of the four optional messages, one per `if`, in the order the handler tests them |
| `Operation.CollectErrors` | cambio.py:119-127 | the handler's append-per-check list equals the specification `ErrorMessages` |
| `Operation.ViolationsUnfold` | cambio.py:120-127 | the violated rules are ordered as the four checks: exchange rate `<= 0`, annual rate `< 0`, days `< 0`, principal `< 0` |
| `Operation.ReportedIffViolated` | cambio.py:120-127 | a rule, and its message, is reported exactly when the input violates it |
| `Operation.ViolationsInCheckOrder` | cambio.py:119-127 | reported rules come in strictly increasing checking order, so each rule appears at most once, and there are at most four |
| `Operation.AcceptableIffAllRulesHold` | cambio.py:120-127 | the four conditions together are exactly "every rule holds", so no input passes with a failing rule and none is rejected with all rules holding |
| `Operation.ZeroPrincipalAccepted` | cambio.py:126-127 | a principal of 0 with otherwise valid inputs produces no error |
| `Operation.ThreeViolationsScenario` | cambio.py:119-127 | input `(0, -1, -5, 0)` reports the exchange-rate, annual-rate and days rules, in that order, and nothing else |
| `Operation.Simulate` | cambio.py:129-138 | the outcome is rejected exactly when some rule fails, and then it carries the non-empty error list. Otherwise the annual rate is `taxa_aa_pct / 100`, the daily rate is the conversion of that rate, the amount is `montante_por_dias(valor_usd, i_dia, dias)` and the final value is amount times exchange rate |
| `Operation.Calculate` | cambio.py:118-138 | the step-by-step handler (collect errors, stop if any, else compute) yields exactly `Simulate` |
| `Operation.FinalAtLeastConvertedPrincipal` | cambio.py:135-138 | for valid inputs with a non-negative daily rate, the final BRL value is at least principal times exchange rate |
| `Operation.NoDaysFinalIsConvertedPrincipal` | cambio.py:135-138 | for valid inputs and 0 days, the final value is exactly principal times exchange rate, whatever the rates |
| `Operation.RenderShowsComputedFinal` | cambio.py:151 | for valid input, the panel's final value is `brl(montante_por_dias(valor_usd, i_dia, dias) * cotacao)` of that same operation |
| `Operation.Render` | cambio.py:145-151 | for a computed outcome, the result panel shows the daily rate as `pct(i_dia, 6)` (the swapped rendering of `i_dia * 100` followed by `%`), the amount and the exchange rate in swapped 2- and 4-decimal renderings, and the final value as `brl` |

## Left out

- Page rendering, forms, widgets, metrics, the expander and `st.rerun` / `st.stop` (cambio.py:11, 57-112, 141-144, 152-168). These belong to the web framework. Of the result panel (cambio.py:145-151) only the four value strings are modelled (`Render`); the metric labels and the `**VALOR FINAL (em BRL)**: ` prefix of the success message are display. The loop that shows each error (cambio.py:130-131) is display only. The model returns the list instead.
- The login gate and the session flag (cambio.py:46-76, 82-87). These are framework-held state and secrets.
- `taxa_anual_para_diaria` (cambio.py:29-34) computes the fractional power `(1 + i) ** (1/365) - 1`. `real` has no exact counterpart for it, so the model takes it as the parameter `dailyRateOf`, with the day basis of 365 fixed inside it.
- Python's `f"{v:,.Nf}"` formatting and its rounding (cambio.py:18, 23, 147, 149). This is library behaviour. It is the parameter `fmt`. Statements about the swap assume only that its output contains no `X`.
- The default `casas = 4` of `pct` (cambio.py:21). Dafny has no default arguments, so `Pct` always takes the number of decimals; the program's only call passes 6 (cambio.py:145).
- Floating-point rounding and overflow. All arithmetic is over `real`. In particular, Python's `float ** int` at cambio.py:38 raises `OverflowError` when the power exceeds the float range (reachable with a large `dias`, which the widget at cambio.py:104-107 does not bound), and the handler does not catch it; the model has no such error path and always returns `Computed` for valid input.
- Finance.AmountAfterDays: the day count is a `nat`. The program reaches `montante_por_dias` only after the days check has passed, so negative exponents are never used.
- The widgets' own lower bounds (`min_value` on each `number_input`, cambio.py:93-112). The model validates arbitrary reals and integers, as the handler's checks do.
- Parsing amounts from free text. `cambio.py` reads all four fields through numeric widgets, so there is no text to parse.
