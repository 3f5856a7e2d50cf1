# Origin: mock meter readings, open-asks table rows, first-login dialog

A Dafny model of three small pieces of an energy-certificate trading platform:

- **Mock smart-meter readings** (`mock_readings.dfy`, module `MockReadings`). This is the solar
  simulator worker. It seeds a running total from the device's last stored reading, or 0. It walks
  fixed-step windows from the start of yesterday up to and including "now". For each window it
  sums the weighting factors of the dataset rows that fall in the window, multiplies the sum by the
  device capacity and rounds it. Each positive result is added to the total and pushed as a
  reading `(total, window start)`. The loop is the method `SynthesizeReadings`. It is proved equal
  to the reference function `Accumulate` over the list of windows `Windows(start, now, step)`.
  The lemmas state what that function guarantees.
- **Open-asks table** (`asks_table.dfy`, module `AsksTable`). This covers filtering and
  pagination of the asks, the row columns (device-type prefix, integer filled percentage, ask id),
  and the lookup of an ask by a row's id when the user views or removes it. The component state
  written by those actions is the class `AskSelection`.
- **First-login invitation dialog** (`invitation_modal.dfy`, module `InvitationModal`). This is the
  `firstLogin` reading of browser storage, the visibility condition, and the two actions that
  close the dialog for good. The component is the class `NoExistingInvitationDialog`. Its
  `localStorage` is a string map and its router history is a list of paths.

`wrappers.dfy` holds `Option`. `arith.dfy` holds three multiplication and division facts.

What the code does where a reader might expect otherwise (the model follows the code):

- The worker visits a window whose start equals "now" (`isSameOrBefore`). So there are
  `(now - start) div step + 1` windows when `start <= now`, not `ceil((now - start) / step)`.
- A row belongs to a window when its time is strictly after the window start and at or before
  the window end, `(start, end]`, not `[start, end)`.
- Only the two window bounds are moved to the year 2015. Row timestamps are parsed with the year
  written in the dataset. So two rows that differ only in their year are not matched alike.
- Each bound is converted on its own. A window that spans New Year's midnight therefore converts
  to an empty range and generates nothing (`InvertedWindowGeneratesNothing`).

Timestamps are unix seconds. The step is the interval in minutes times 60, because the date
library adds minutes as absolute time.

## Model

| member | source | states |
|---|---|---|
| `MockReadings.LatestMeterRead` | packages/solar-simulator/src/workers/mockReadingsWorker.ts:19-22 | the definition of the seed: the last stored reading's value, or 0 when nothing is stored. Its property is carried by `NextRunSeed` and `SynthesizeReadings` |
| `MockReadings.IntervalMinutes` | packages/solar-simulator/src/workers/mockReadingsWorker.ts:88-89 | `parseInt(...)` falling back to 15 is never 0. It is 15 for a missing, NaN or 0 value, the parsed value when it is not 0, and positive unless the parsed value is negative |
| `MockReadings.NextRunSeed` | packages/solar-simulator/src/workers/mockReadingsWorker.ts:19-22 | the seed is the last stored reading's value or 0. Seeding the next run from the stored readings plus this batch gives exactly this run's final total |
| `MockReadings.MatchingRows` | packages/solar-simulator/src/workers/mockReadingsWorker.ts:104-112 | the `filter` over the dataset rows: the result is no longer than the dataset and every kept row lies in `(lo, hi]`. `MatchingRowsExactly` gives the full characterisation |
| `MockReadings.MatchingRowsExactly` | packages/solar-simulator/src/workers/mockReadingsWorker.ts:104-112 | a row counts toward a window exactly when `start < time <= end`, with its multiplicity, and rows outside are dropped |
| `MockReadings.SumFactors` | packages/solar-simulator/src/workers/mockReadingsWorker.ts:113 | the `reduce` summing the factors of the matching rows. The sum is not negative when no factor is |
| `MockReadings.RoundHalfUp` | packages/solar-simulator/src/workers/mockReadingsWorker.ts:116 | `Math.round` gives the integer within 1/2 of x, with ties going up. It is positive exactly when x >= 1/2 |
| `MockReadings.WindowEnergy` | packages/solar-simulator/src/workers/mockReadingsWorker.ts:101-116 | the definition of a window's energy: capacity times the summed factors of the rows matching the bounds moved to 2015, rounded. It is not negative for a non-negative capacity and factors. `NoMatchingRowsNoEnergy` and `InvertedWindowGeneratesNothing` carry its other properties |
| `MockReadings.NoMatchingRowsNoEnergy` | packages/solar-simulator/src/workers/mockReadingsWorker.ts:113-116 | a window with no matching row has energy 0 |
| `MockReadings.InvertedWindowGeneratesNothing` | packages/solar-simulator/src/workers/mockReadingsWorker.ts:101-111 | when the converted end is not after the converted start, the window's energy is 0 |
| `MockReadings.NumWindows` | packages/solar-simulator/src/workers/mockReadingsWorker.ts:96-99 | the number of visited window starts: 0 exactly when now is before the start, and otherwise the n with `(n-1)*step <= now - start < n*step`, so the last visited start is at or before now and the next is after it |
| `MockReadings.VisitedIff` | packages/solar-simulator/src/workers/mockReadingsWorker.ts:96 | the i-th start `start + i*step` is visited exactly when it is at or before now |
| `MockReadings.Windows` | packages/solar-simulator/src/workers/mockReadingsWorker.ts:96-99 | the definition of the visited windows, in order: window k runs from `start + k*step` to `start + (k+1)*step`. `WindowsContiguous`, `VisitedIff` and `WindowsStartsIncrease` carry its properties |
| `MockReadings.WindowsContiguous` | packages/solar-simulator/src/workers/mockReadingsWorker.ts:96-99 | there are `(now-start) div step + 1` windows (0 if start > now), starting at `start`. Each is one step long and starts at or before now. Consecutive windows meet without overlap, and the first start not visited is after now |
| `MockReadings.WindowsStartsIncrease` | packages/solar-simulator/src/workers/mockReadingsWorker.ts:97-99 | window starts strictly increase |
| `MockReadings.Accumulate` | packages/solar-simulator/src/workers/mockReadingsWorker.ts:118-131 | the definition of the emission rule applied to the windows in order. `AccumulateEmits`, `AccumulateTotal`, `ReadingsStrictlyIncrease`, `StampedByVisitedWindows`, `TimestampsStrictlyIncrease` and `NothingEmittedIff` carry its properties, and `SynthesizeReadings` is proved equal to it |
| `MockReadings.PositiveWindowsMembers` | packages/solar-simulator/src/workers/mockReadingsWorker.ts:118 | the windows that emit are exactly the visited windows with energy > 0 |
| `MockReadings.AccumulateEmits` | packages/solar-simulator/src/workers/mockReadingsWorker.ts:118-129 | there is one reading per positive-energy window, in window order. Reading j is stamped with its window's start and equals the previous value (the seed for the first) plus that window's energy. The final total is the last value, or the seed |
| `MockReadings.AccumulateTotal` | packages/solar-simulator/src/workers/mockReadingsWorker.ts:96-132 | final total = seed + sum of all positive window energies |
| `MockReadings.EmittedAtMostWindows` | packages/solar-simulator/src/workers/mockReadingsWorker.ts:96-132 | no more readings than windows |
| `MockReadings.ReadingsStrictlyIncrease` | packages/solar-simulator/src/workers/mockReadingsWorker.ts:121-128 | emitted values strictly increase, each exceeds the seed and none exceeds the total, and the total is at least the seed |
| `MockReadings.StampedByVisitedWindows` | packages/solar-simulator/src/workers/mockReadingsWorker.ts:123-126 | every emitted timestamp is the start of a visited window whose energy is positive |
| `MockReadings.TimestampsStrictlyIncrease` | packages/solar-simulator/src/workers/mockReadingsWorker.ts:123-126 | when window starts increase, the emitted timestamps strictly increase |
| `MockReadings.NothingEmittedIff` | packages/solar-simulator/src/workers/mockReadingsWorker.ts:118-129 | no reading is emitted exactly when no window has positive energy. The total is then the seed |
| `MockReadings.NoMatchingRowsNoReadings` | packages/solar-simulator/src/workers/mockReadingsWorker.ts:104-120 | with no row in any window the batch is empty and the total is the seed |
| `MockReadings.SingleRowExample` | packages/solar-simulator/src/workers/mockReadingsWorker.ts:104-129 | seed 0, capacity 100, 15-minute step and one row of factor 0.5 in the first of three windows give exactly one reading, of 50, at the first window's start |
| `MockReadings.SynthesizeReadings` | packages/solar-simulator/src/workers/mockReadingsWorker.ts:91-132 | the loop's readings and final total are `Accumulate` over `Windows(start, now, 60*interval)` seeded from the stored readings. The total is the seed plus the positive energies. There are at most as many readings as windows, values strictly increase above the seed up to the total, and timestamps strictly increase |
| `AsksTable.Filter` | packages/origin-ui-core/src/components/orders/AsksTable.tsx:96-98 | every kept ask passes the filter, and no more asks are kept than given |
| `AsksTable.FilterExactly` | packages/origin-ui-core/src/components/orders/AsksTable.tsx:96-98 | the filtered list holds each passing ask as often as the input does and nothing else |
| `AsksTable.FilterAppend` | packages/origin-ui-core/src/components/orders/AsksTable.tsx:96-98 | filtering keeps the input order: it distributes over concatenation |
| `AsksTable.JsSlice` | packages/origin-ui-core/src/components/orders/AsksTable.tsx:100 | `slice(start, end)` for non-negative bounds: its length is `max(min(end, len) - min(start, len), 0)`, and element k is element `start + k` of the list. Negative bounds count from the end (the helper `SliceIndex`) |
| `AsksTable.GetPaginatedData` | packages/origin-ui-core/src/components/orders/AsksTable.tsx:91-103 | `total` is the size of the filtered list and every page element passes the filter. For non-negative offset and size the page has `min(size, max(total - offset, 0))` elements, and element k is filtered element `offset + k`. The page is empty when offset >= total |
| `AsksTable.PageFromAsks` | packages/origin-ui-core/src/components/orders/AsksTable.tsx:96-100 | every ask on a page is one of the table's asks |
| `AsksTable.AdjacentPages` | packages/origin-ui-core/src/components/orders/AsksTable.tsx:100 | the page at offset o of size n followed by the page at o+n of size m equals the page at o of size n+m |
| `AsksTable.BeforeFirst` | packages/origin-ui-core/src/components/orders/AsksTable.tsx:135 | `split(c)[0]` is a prefix without `c`. It is the whole string when `c` does not occur, and is otherwise followed by `c` |
| `AsksTable.DeviceTypeLabel` | packages/origin-ui-core/src/components/orders/AsksTable.tsx:135 | `device_type` is absent exactly when there is no device type. Otherwise it is the prefix of the first one before its first `;`: a prefix without `;` that is followed by `;` when the first type contains one and is the whole type when it does not |
| `AsksTable.TruncDiv` | packages/origin-ui-core/src/components/orders/AsksTable.tsx:139-143 | the big-number quotient truncates toward zero: abs(q)·abs(d) <= abs(n) < (abs(q)+1)·abs(d), and q has the sign of n/d |
| `AsksTable.Filled` | packages/origin-ui-core/src/components/orders/AsksTable.tsx:138-144 | the ratio is undefined (the source throws) exactly when the start volume is 0 or the truncated quotient has magnitude 2^53 or more, where `toNumber()` throws. A defined ratio is below 2^53 in magnitude. For 0 <= current <= start and start > 0 it is defined and is the floor of the filled percentage. It lies in [0, 100], is 0 when current = start and 100 when current = 0 |
| `AsksTable.FilledMonotone` | packages/origin-ui-core/src/components/orders/AsksTable.tsx:138-144 | for partly filled orders both ratios are defined, and less volume left never shows a smaller ratio |
| `AsksTable.BuildRow` | packages/origin-ui-core/src/components/orders/AsksTable.tsx:131-146 | a row can be built exactly when the device lookup finds the order's device, the order has a device type, its start volume is not 0, and the filled quotient fits `toNumber()` (magnitude below 2^53). The row carries the order's id |
| `AsksTable.BuildRows` | packages/origin-ui-core/src/components/orders/AsksTable.tsx:119-147 | rows exist exactly when every page order can be rendered. Then there is one row per order in order, and row k carries order k's id, device-type label and filled ratio |
| `AsksTable.PartlyFilledIsRenderable` | packages/origin-ui-core/src/components/orders/AsksTable.tsx:131-146 | an order with a known device, a device type and 0 <= current <= start, start > 0 always gets a row |
| `AsksTable.FindById` | packages/origin-ui-core/src/components/orders/AsksTable.tsx:151 | `find` gives nothing exactly when no ask has the id. Otherwise it gives the first ask with that id |
| `AsksTable.RowLookupFindsAsk` | packages/origin-ui-core/src/components/orders/AsksTable.tsx:149-159 | for any row of the shown page, the lookup by its `askId` finds an ask with that id |
| `AsksTable.AskSelection.constructor` | packages/origin-ui-core/src/components/orders/AsksTable.tsx:36-37 | nothing is selected for viewing or removal at first |
| `AsksTable.AskSelection.ViewDetails` | packages/origin-ui-core/src/components/orders/AsksTable.tsx:149-153 | for a row index in range, the viewed ask becomes the first ask with the row's id (or none). Out of range, nothing changes. The removal selection is untouched |
| `AsksTable.AskSelection.RemoveAsk` | packages/origin-ui-core/src/components/orders/AsksTable.tsx:155-159 | the same lookup for the ask to remove. The viewed ask is untouched |
| `AsksTable.AskSelection.CloseDetails` | packages/origin-ui-core/src/components/orders/AsksTable.tsx:186 | closing the details dialog clears the viewed ask only |
| `AsksTable.AskSelection.CloseRemoval` | packages/origin-ui-core/src/components/orders/AsksTable.tsx:187-189 | closing the confirmation clears the ask to remove only |
| `InvitationModal.GetItem` | packages/origin-ui-core/src/components/Modal/NoExistingInvitationModal.tsx:17 | the definition of `localStorage.getItem`: the stored string, or nothing for a missing key. Read through `FirstLoginIff` and `Visible` |
| `InvitationModal.TrimStart` | packages/origin-ui-core/src/components/Modal/NoExistingInvitationModal.tsx:17 | removes exactly the leading JSON whitespace: the result is a suffix, what was cut is all whitespace, and the result does not start with whitespace |
| `InvitationModal.TrimEnd` | packages/origin-ui-core/src/components/Modal/NoExistingInvitationModal.tsx:17 | the same for trailing JSON whitespace |
| `InvitationModal.FirstLogin` | packages/origin-ui-core/src/components/Modal/NoExistingInvitationModal.tsx:17 | the definition of `firstLogin`: the key is missing, or its value trimmed of JSON whitespace is `null`. `FirstLoginIff` carries its property |
| `InvitationModal.FirstLoginIff` | packages/origin-ui-core/src/components/Modal/NoExistingInvitationModal.tsx:17 | `firstLogin` holds exactly when the key is absent or holds the JSON text `null`, that is `null` with only JSON whitespace around it |
| `InvitationModal.StoredFalseIsNotFirstLogin` | packages/origin-ui-core/src/components/Modal/NoExistingInvitationModal.tsx:24 | the stored `'false'` never reads as a first login |
| `InvitationModal.CheckUser` | packages/origin-ui-core/src/components/Modal/NoExistingInvitationModal.tsx:19 | the definition of `checkUser()`: a user is signed in and has no organization. Its use is stated by `Visible` |
| `InvitationModal.NoExistingInvitationDialog.constructor` | packages/origin-ui-core/src/components/Modal/NoExistingInvitationModal.tsx:12 | a mounted dialog starts open over the given storage and history |
| `InvitationModal.NoExistingInvitationDialog.Visible` | packages/origin-ui-core/src/components/Modal/NoExistingInvitationModal.tsx:17-20 | the dialog shows exactly when there are no invitations, the user is signed in without an organization, `isOpen` holds, and the `firstLogin` key is missing or holds the JSON text `null`. A stored `'false'` always hides it |
| `InvitationModal.NoExistingInvitationDialog.NotNow` | packages/origin-ui-core/src/components/Modal/NoExistingInvitationModal.tsx:22-25 | closes the dialog and stores `'false'` under `firstLogin`. Other keys and the history are unchanged. Afterwards `firstLogin` is false and the dialog is hidden for every invitation list and user |
| `InvitationModal.NoExistingInvitationDialog.Register` | packages/origin-ui-core/src/components/Modal/NoExistingInvitationModal.tsx:27-31 | appends `/organization/organization-register` to the history, closes the dialog and stores `'false'`. Afterwards it is hidden for every invitation list and user |
| `InvitationModal.NoExistingInvitationDialog.Remount` | packages/origin-ui-core/src/components/Modal/NoExistingInvitationModal.tsx:12 | a new mount sets `isOpen` again but keeps storage, history and the value of `firstLogin` |
| `InvitationModal.DismissedStaysHidden` | packages/origin-ui-core/src/components/Modal/NoExistingInvitationModal.tsx:17-31 | after either action and a remount the dialog is hidden, whatever the invitations and user |

## Left out

- Worker I/O is not modelled: environment variables, wallet and provider construction, the backend
  login, the device sync and save, the try/catch logging, and the final `postMessage`. The stored
  readings, the start of yesterday, "now" and the interval are parameters.
- The date library is not modelled. Parsing of row dates, the time-zone start of day, and the
  conversion of a bound to the year 2015 are outside the model; the conversion is the abstract
  function `withFixedYear` of a `Simulation`.
- `MockReadings.WindowEnergy`: row factors and capacity are exact reals, so the energy is exact.
  `parseFloat` and the rounding of IEEE doubles in the sum and the product are not modelled.
  Nor is the failure of `BigNumber.from(Math.round(...))`: it throws on NaN (a factor that does not
  parse as a number) and on a value beyond 2^53, which rejects the worker's run before the save.
  The model's energy is always an integer.
- `MockReadings.SynthesizeReadings`: requires a positive interval. The source's loop never ends
  for a negative interval.
- `AsksTable.GetPaginatedData`: the page-number-to-offset mapping of the paginated loader hook is
  not modelled, and neither are the filter definitions. The record filter is the abstract
  predicate `passes`.
- `AsksTable.Filled`: the final `/ 100` float division and the `%` text are not modelled; only the
  integer quotient is.
- `AsksTable.BuildRows`: where a modelled column throws while building rows, the model gives
  `None` for the whole list. The kind of exception is not modelled. Whether `deviceById` finds the order's
  device is the abstract predicate `deviceFound`. A missing device makes `.facilityName` throw.
  The volumes are integers of any size. When a volume is a JavaScript number of magnitude 2^53 or
  more, `new BigNumber(v)` throws in the source; the model still builds that row. The throw of
  `toNumber()` past 53 bits is modelled (`SafeNumberBound`).
- AsksTable presentation is not modelled: volume, price and date formatting, translations, the
  facility name itself, the page-size `useEffect`, and the JSX.
- `AsksTable.AskSelection.ViewDetails`: the table's row-index string (`parseInt(row)`) is taken
  as an integer. An out-of-range index throws in the source; here it returns `false` and changes
  nothing.
- `InvitationModal.FirstLogin`: a stored value that is not valid JSON makes `JSON.parse` throw
  during rendering. The model instead reads such a value as "not a first login".
- `InvitationModal.CheckUser`: `null` and `undefined` for the user are both `None`.
- Dialog JSX, translations and Material-UI are not modelled.
- packages/origin-backend/src/auth/auth.module.ts is not part of this model: it is only
  dependency-injection and JWT configuration.
- packages/origin-ui-core/src/components/Organization/OrganizationInvitations.tsx is not part of
  this model: it only renders JSX based on a role check.
