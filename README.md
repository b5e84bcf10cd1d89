# fintrack: breadcrumbs, password strength and budget planner in Dafny

This project models three pieces of client-side logic from fintrack, a
personal-finance ledger web application, and proves properties about them:

- **Breadcrumbs** (`breadcrumbs.dfy`). This is the trail shown above every dashboard page.
  - The pathname is split on `/` and the empty pieces are dropped.
  - A fixed root crumb `Dashboard` → `/` goes first.
  - Each segment then becomes a crumb. Its name is the segment with the first letter upper-cased. Its href is a slash followed by the segments up to and including it.
  - When rendered, the first crumb is a home link and the last crumb after it is plain text. Every other crumb is a link, and every crumb after the first has a chevron separator.
- **Password strength** (`password_strength.dfy`). This is the registration page's strength indicator.
  - The score is one point per criterion met: length ≥ 8, length ≥ 12, both an ASCII lower-case and an ASCII upper-case letter, an ASCII digit, and any character that is not an ASCII letter or digit.
  - The bar is 20% per point. Its colour and label are chosen by three bands: 0-2 weak, 3 medium, 4-5 strong.
  - An empty password shows no indicator.
  - The submit button is enabled only when nothing is pending and the terms are accepted.
- **Budget planner** (`budget_planner.dfy`). This is the per-category budget map logic.
  - The loaded budgets and the suggestions are turned into `category id → amount` maps. A later entry overwrites an earlier one.
  - A missing entry reads as 0.
  - Saving sends the category's amount, or 0 when it has none.
  - Applying a suggestion changes one key, and only when the suggestion is non-zero.
  - Editing an amount stores the entered number, or 0 when the input is not a number.
  - Each category card shows a percentage spent, an over-budget flag, a progress bar capped at 100, and a suggestion hint.

`wrappers.dfy` holds the `Option` type. `IndicatorOf` returns `None` for the empty password, where the page renders nothing. `EditBudget` takes the entered number as an `Option`, with `None` for an input that `Number` does not parse. `ascii.dfy` holds the ASCII character classes shared by the password rules and the breadcrumb names.

The map builders and `getStrength` are imperative in the source. They are modelled as methods:
- The map builders are loops with invariants, proved against an independent last-write-wins description.
- `getStrength` is a counter raised step by step, proved equal to the number of criteria met.

The rest is pure and is modelled as functions and lemmas. Money amounts are exact `real`s, not floating point.

## Model

| member | source | states |
|---|---|---|
| Breadcrumbs.Split | components/layout/Breadcrumbs.tsx:10 | splitting on `/` gives at least one piece, and no piece contains a slash |
| Breadcrumbs.JoinSplit | components/layout/Breadcrumbs.tsx:10 | joining the pieces of a split with `/` gives the original string back |
| Breadcrumbs.SplitJoin | components/layout/Breadcrumbs.tsx:10 | splitting a join of slash-free pieces gives the pieces back, so split and join are inverse |
| Breadcrumbs.SplitAtSlash | components/layout/Breadcrumbs.tsx:10 | the pieces of `a/b` are the pieces of `a` followed by those of `b` |
| Breadcrumbs.JoinSnoc | components/layout/Breadcrumbs.tsx:15 | joining one more segment appends a slash and that segment |
| Breadcrumbs.NonEmpty | components/layout/Breadcrumbs.tsx:10 | `filter(Boolean)` keeps exactly the non-empty pieces and never lengthens the list |
| Breadcrumbs.NonEmptyAppend | components/layout/Breadcrumbs.tsx:10 | filtering a concatenation filters each part |
| Breadcrumbs.Segments | components/layout/Breadcrumbs.tsx:10 | every segment is non-empty and slash-free, and the segments are exactly the non-empty pieces of the split |
| Breadcrumbs.SegmentsAtSlash | components/layout/Breadcrumbs.tsx:10 | a slash is a pure separator: the segments of `a/b` are those of `a` then those of `b` |
| Breadcrumbs.SegmentsIgnoreRepeatedSlash | components/layout/Breadcrumbs.tsx:10 | `a//b` has the same segments as `a/b` |
| Breadcrumbs.SegmentsIgnoreLeadingSlash | components/layout/Breadcrumbs.tsx:10 | a leading slash does not change the segments |
| Breadcrumbs.SegmentsIgnoreTrailingSlash | components/layout/Breadcrumbs.tsx:10 | a trailing slash does not change the segments |
| Breadcrumbs.SegmentsOfJoin | components/layout/Breadcrumbs.tsx:10-15 | valid segments joined into a path, with or without a leading slash, give the same segments back |
| Breadcrumbs.NormalisedIdempotent | components/layout/Breadcrumbs.tsx:10-15 | the normalised pathname has the same segments, and normalising twice is normalising once |
| Breadcrumbs.UpperAscii | components/layout/Breadcrumbs.tsx:16 | upper-casing maps an ASCII lower-case letter to its capital and leaves every other character alone |
| Breadcrumbs.Capitalise | components/layout/Breadcrumbs.tsx:16 | only the first character is upper-cased; the rest and the length are kept, and no slash is introduced |
| Breadcrumbs.CapitaliseIdempotent | components/layout/Breadcrumbs.tsx:16 | capitalising a capitalised name changes nothing |
| Breadcrumbs.CrumbsShape | components/layout/Breadcrumbs.tsx:12-19 | the first crumb is `Dashboard` → `/`, there is one crumb more than segments, and crumb k+1 is named after segment k with its first letter upper-cased |
| Breadcrumbs.RootOnly | components/layout/Breadcrumbs.tsx:10-19 | `/` and the empty path yield only the root crumb, and a path yields one crumb exactly when it consists only of slashes |
| Breadcrumbs.RootOnlyIff | components/layout/Breadcrumbs.tsx:10 | a path has no segments exactly when every character is a slash |
| Breadcrumbs.HrefChain | components/layout/Breadcrumbs.tsx:15 | crumb 1's href is `/` plus the first segment; each later crumb's href is the previous href plus `/` plus its segment |
| Breadcrumbs.HrefsPrefixOrdered | components/layout/Breadcrumbs.tsx:15-27 | for any pathname, every href is a strictly shorter prefix of every later href, and no two crumbs share an href (the render key) |
| Breadcrumbs.HrefStep | components/layout/Breadcrumbs.tsx:15 | crumb k+1's href is crumb k's href followed by segment k, with a slash in between except after the root |
| Breadcrumbs.HrefOfSnoc | components/layout/Breadcrumbs.tsx:15 | the href of segment k is the href of segment k-1, a slash and segment k |
| Breadcrumbs.HrefStepIsProperPrefix | components/layout/Breadcrumbs.tsx:15 | each crumb's href is a proper prefix of the next crumb's href |
| Breadcrumbs.GrowingPrefixes | components/layout/Breadcrumbs.tsx:15-27 | in a list where each string is a proper prefix of the next, each is a proper prefix of every later one |
| Breadcrumbs.HrefsGrow | components/layout/Breadcrumbs.tsx:15 | for valid segments, crumb i's href is a proper prefix of crumb j's href whenever i < j |
| Breadcrumbs.LastHrefIsNormalised | components/layout/Breadcrumbs.tsx:15 | when there is a segment, the last crumb's href (its render key) is the normalised pathname |
| Breadcrumbs.CrumbsNormalise | components/layout/Breadcrumbs.tsx:10-19 | the trail of the normalised path is the same trail; repeated, leading and trailing slashes change no crumb |
| Breadcrumbs.SlashExample | components/layout/Breadcrumbs.tsx:10-19 | `/a//b/` gives the same crumbs as `/a/b`, whose segments are `a`, `b` |
| Breadcrumbs.RenderTrail | components/layout/Breadcrumbs.tsx:23-46 | index 0 renders as the home link to `/` with no separator; every later crumb has a separator; exactly the last crumb at index > 0 is plain text; every other crumb links to its own href |
| Breadcrumbs.RenderRoot | components/layout/Breadcrumbs.tsx:23-36 | the path `/` renders as the home link alone |
| PasswordStrength.CountMet | app/register/page.tsx:19-26 | the count of criteria met is at most the number of criteria; it is the full number exactly when all are met and 0 exactly when none is |
| PasswordStrength.ScoreSum | app/register/page.tsx:19-26 | the score is the sum of the five one-point criteria |
| PasswordStrength.GetStrength | app/register/page.tsx:19-27 | the counter raised by the five guarded increments equals the number of criteria met |
| PasswordStrength.ScoreBounds | app/register/page.tsx:19-26 | the score is between 0 and 5; it is 5 exactly when all criteria are met and 0 exactly when none is |
| PasswordStrength.LengthPoints | app/register/page.tsx:21-22 | a password shorter than 8 gets no length point (score ≤ 3); one of length ≥ 12 gets both (score ≥ 2) |
| PasswordStrength.CharacterClassPoints | app/register/page.tsx:23-25 | the mixed-case point needs an ASCII lower- and upper-case letter; any non-ASCII character earns the symbol point; without an upper-case letter there is no mixed-case point |
| PasswordStrength.MeetsAppend | app/register/page.tsx:21-25 | appending a character keeps every criterion already met |
| PasswordStrength.CountMetMonotone | app/register/page.tsx:19-26 | meeting more criteria never gives a lower count |
| PasswordStrength.ScoreMonotoneAppend | app/register/page.tsx:19-26 | appending a character never lowers the score |
| PasswordStrength.ScoreMonotone | app/register/page.tsx:19-26 | appending any string never lowers the score |
| PasswordStrength.BandsCoincide | app/register/page.tsx:32-42 | score ≤ 2 is `Débil`/`bg-destructive`, 3 is `Media`/`bg-warning`, ≥ 4 is `Fuerte`/`bg-success`; each colour goes with exactly one label |
| PasswordStrength.ShortIsNeverStrong | app/register/page.tsx:19-42 | a password shorter than 8 characters is never labelled `Fuerte` |
| PasswordStrength.IndicatorShape | app/register/page.tsx:29-51 | no indicator exactly for the empty password; otherwise the bar is 20% per point, between 0 and 100, full exactly at score 5, with the colour and label of the score |
| PasswordStrength.ChecklistPoints | app/register/page.tsx:114-135 | the three checklist ticks are the length-8, mixed-case and digit criteria; all three ticked means score ≥ 3, which is never labelled weak |
| PasswordStrength.Examples | app/register/page.tsx:19-42 | `abc` scores 0 and is `Débil`; `Abcdefg1!` scores 4 and is `Fuerte` |
| PasswordStrength.SubmitDisabled | app/register/page.tsx:177 | submit is enabled exactly when no submission is pending and the terms are accepted |
| BudgetPlanner.LastWriteWinsStep | components/budget/BudgetPlanner.tsx:44-47 | writing one more entry keeps the map equal to the last-write-wins map of the longer list |
| BudgetPlanner.LastEntryExists | components/budget/BudgetPlanner.tsx:44-47 | every key written has a last entry |
| BudgetPlanner.LastWriteWinsUnique | components/budget/BudgetPlanner.tsx:44-47 | only one map fits the last-write-wins description of a list |
| BudgetPlanner.InitialBudgetMap | components/budget/BudgetPlanner.tsx:43-49 | the loop builds the map holding exactly the loaded budgets' category ids, each mapped to the amount of its last budget |
| BudgetPlanner.SuggestionMap | components/budget/BudgetPlanner.tsx:72-75 | the loop builds the suggestions map the same way, with the last write winning |
| BudgetPlanner.InitialMapContents | components/budget/BudgetPlanner.tsx:43-49 | a category is in the initial map exactly when some budget has it, and it maps to the amount of the last such budget |
| BudgetPlanner.AmountOr0 | components/budget/BudgetPlanner.tsx:52 | a missing entry reads as 0; a present entry reads as itself |
| BudgetPlanner.SaveRequest | components/budget/BudgetPlanner.tsx:51-55 | saving sends the category, the month and year given, and the budget amount or 0 when there is none |
| BudgetPlanner.SaveAfterLoad | components/budget/BudgetPlanner.tsx:43-55 | saving straight after loading sends the category's last loaded amount, or 0 for a category without a budget |
| BudgetPlanner.ApplySuggestion | components/budget/BudgetPlanner.tsx:86-90 | no key other than the category changes; with a non-zero suggestion the category gets it, otherwise the map is unchanged |
| BudgetPlanner.ApplySuggestionIdempotent | components/budget/BudgetPlanner.tsx:86-90 | applying a suggestion twice is the same as applying it once |
| BudgetPlanner.EditBudget | components/budget/BudgetPlanner.tsx:145 | editing sets only the edited category, to the entered number or 0 when it is not a number |
| BudgetPlanner.ProgressValue | components/budget/BudgetPlanner.tsx:137 | the progress bar value is the percentage capped at 100, so it never exceeds 100 |
| BudgetPlanner.SignOfProduct | components/budget/BudgetPlanner.tsx:114-115 | multiplying by a positive budget keeps a value's sign: positive exactly when the value is, zero exactly when the value is |
| BudgetPlanner.PercentageRules | components/budget/BudgetPlanner.tsx:114-115 | a non-positive budget gives 0%; for a positive budget, over 100% exactly when spent > budget and 100% exactly when spent = budget; non-negative spending gives a non-negative percentage |
| BudgetPlanner.CardRules | components/budget/BudgetPlanner.tsx:111-159 | missing budget and spending read as 0; without a positive budget the card shows 0%, is not over budget and the bar is 0; with one it is over budget exactly when spending exceeds it and the bar is full exactly when spending reaches it; the hint needs suggestions on, a positive suggestion and one that differs from the budget |
| BudgetPlanner.ApplyShownHint | components/budget/BudgetPlanner.tsx:159-162 | applying a shown hint sets the category's budget to the suggestion, hides the hint and leaves every other card unchanged |

## Left out

- The month-closure, recurring-entry and projection engine is not part of this model. It lives in server actions (`app/(dashboard)/advanced-actions.ts`) and is outside the three modelled files. Its callers and displays are `components/dashboard/MonthlyClosureCheck.tsx`, `app/(dashboard)/actions.ts` and `components/dashboard/Projections.tsx`, none of which is modelled.
- The server calls are foreign I/O: saving a budget, fetching suggestions, sign-up, and the toasts and console output. The model covers only the values passed to and taken from them: `SaveRequest` for the save, and `SuggestionMap` for the data fetched.
- The current month and year come from the clock (`new Date()`), so they are parameters of `SaveRequest`.
- React state, effects, loading flags and JSX markup are not modelled; the rules they carry are. In particular, a new `initialBudgets` list rebuilding the map is not modelled.
- The `toFixed(0)` percentage text and the `toLocaleString` amounts are display formatting and are not modelled.
- Breadcrumbs.UpperAscii: only ASCII letters are upper-cased. JavaScript's `toUpperCase` also maps non-ASCII letters and can change a string's length (`ß` becomes `SS`).
- Password length: a password's length is counted in Dafny characters (Unicode scalar values). JavaScript counts UTF-16 code units, so a character outside the Basic Multilingual Plane counts twice in the source.
- BudgetPlanner.EditBudget: `Number(val)` parsing a string is not modelled. The parsed value is given as an `Option`, with `None` for input that is not a number.
- NaN and infinity in amounts cannot occur with exact reals. So `x || 0` is modelled as "the entry, or 0 when missing".
- `applySuggestion` applies any non-zero suggestion, including a negative one. Its hint, however, is shown only for a positive suggestion. `ApplySuggestion` models the code as written.
