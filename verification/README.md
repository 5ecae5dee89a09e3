# django-workers scheduling core in Dafny

This project models the scheduling core of the `workers` Django app: the `Task` record, the two
operations that add rows to the task table, and the canonical hasher that identifies a task by its
handler name and arguments.

- `Task.create_repeated` computes the next occurrence of a repeating task. It starts one period
  after `run_at` and skips every slot that is already in the past. It then declines if a pending
  row with the same hash and `run_at` exists, and otherwise inserts one waiting copy of the task.
- `Task.create_scheduled_task` inserts a one-shot task due `schedule` seconds from now, unless a
  pending row with the same handler and delay already exists.
- `get_hash` (in `workers/util.py`, copied as the static method `Task.get_hash`) normalises falsy
  arguments to `[]` and `{}`. It writes `(args, kwargs)` with `json.dumps(..., sort_keys=True)`,
  puts the handler name in front, and takes the SHA-1 hex digest.

Modules:

- `Json` (json.dfy) holds JSON values as Python sees them. A dict is kept as its members in
  insertion order, so key order is something the model can talk about.
- `Canonical` (canonical.dfy) sorts dict keys recursively, as `sort_keys=True` does. It proves
  that the sorted form forgets exactly the key order.
- `Render` (render.dfy) produces the text `json.dumps` writes with its default settings: the ", "
  and ": " separators and `ensure_ascii` escaping, including `\uXXXX` and surrogate pairs.
- `Parse` (parse.dfy) reads that text back. Its purpose is to show that the text determines the
  value, so that equal hash inputs mean falsy-normalised arguments that are equal up to key order.
- `Util` (util.dfy) is `get_hash`. SHA-1 is a parameter: a `Digester` is any function whose
  outputs are 40 lower-case hex characters.
- `Models` (models.dfy) holds the `Task` record, its constants and the two operations.

The task table is a sequence of rows, and timestamps are integer seconds. The current time is a
parameter `now`. Each operation is a pure function returning the new table together with what the
call did: nothing to repeat, declined as a duplicate, or created a given row. The source returns
`None` in every case. It logs a warning when it declines a duplicate and a debug line when it
creates a row, and logs nothing when the task does not repeat.

The loop at workers/models.py:72 only skips slots strictly before `now`, so the new `run_at` can
equal `now` exactly; `Models.DailyTenDaysLate` shows this.

## Model

| member | source | states |
|---|---|---|
| Canonical.SortMembers | workers/util.py:41 | the members of a dict in `sort_keys` order: a permutation of the input whose keys never decrease |
| Canonical.StrictlySortedUnique | workers/util.py:41 | two key-sorted member lists with the same members are the same list, so the sorted order is unique |
| Canonical.SortIgnoresOrder | workers/util.py:41 | sorting the members of a dict gives the same list whatever order the keys were inserted in |
| Canonical.CanonIgnoresKeyOrder | workers/util.py:41 | two well-formed values that differ only in the key order of dicts, at any depth, have the same sorted form |
| Canonical.SameCanonIsSameUpToKeyOrder | workers/util.py:41 | the converse: values with the same sorted form differ at most in dict key order |
| Canonical.PermutedDictSameUpToKeyOrder | workers/util.py:41 | a dict whose members are listed in another order is the same dict up to key order |
| Render.SerializePair | workers/util.py:41 | the Python pair `(args, kwargs)` is written as `[`, the text of args, `, `, the text of kwargs, `]` |
| Render.SerializeIgnoresKeyOrder | workers/util.py:41 | reordering the keys of any dict inside a value leaves the `json.dumps(..., sort_keys=True)` text unchanged |
| Parse.DecodeEscapeChar | workers/util.py:41 | every `ensure_ascii` escape of a character, including surrogate pairs, reads back as that character |
| Parse.ParseCharsEscape | workers/util.py:41 | an escaped string body followed by a closing quote reads back as the original string |
| Parse.ParseIntText | workers/util.py:41 | the decimal text of any integer, followed by a non-digit, reads back as that integer |
| Parse.ParseRender | workers/util.py:41 | reading back the JSON text of any value gives that value and leaves the input after it |
| Parse.RenderInjective | workers/util.py:41 | different values have different JSON texts |
| Parse.SerializeSameIff | workers/util.py:41 | two well-formed values get the same `sort_keys` text if and only if they differ at most in dict key order |
| Util.GetHash | workers/util.py:37-43 | the hash is 40 lower-case hex characters, the width of the `task_hash` column |
| Util.DigestInputShape | workers/util.py:41-43 | the digest input is the handler name followed by `[args, kwargs]`, after falsy normalisation and key sorting |
| Util.GetHashNormalisesFalsy | workers/util.py:38-39 | falsy args hash as `[]`, falsy kwargs as `{}`, and `get_hash(h)` equals `get_hash(h, [], {})` |
| Util.GetHashIgnoresKeyOrder | workers/util.py:41 | arguments that differ only in dict key order give the same hash |
| Util.DigestInputSameIff | workers/util.py:38-42 | two calls feed SHA-1 the same string if and only if their falsy-normalised args, and their falsy-normalised kwargs, are the same up to dict key order |
| Models.StatusText | workers/models.py:14-22 | each status is stored as a literal of at most 10 characters, which reads back as the same status |
| Models.GetHash | workers/models.py:98-105 | `Task.get_hash` computes the same function as `util.get_hash` on all inputs, and its result has 40 characters |
| Models.NextSlot | workers/models.py:70-73 | the closed-form slot is `run_at + k*repeat` with `k >= 1`, is not before `now`, and is either the first slot or follows one before `now` |
| Models.CatchUpSlotUnique | workers/models.py:70-73 | at most one slot meets that description |
| Models.NextSlotIsLeast | workers/models.py:70-73 | the slot is the least `run_at + k*repeat` with `k >= 1` not before `now`, so missed slots are skipped and not backfilled |
| Models.CatchUp | workers/models.py:70-73 | the loop stops at exactly that slot |
| Models.DailyTenDaysLate | workers/models.py:70-73 | a daily task ten days late gets exactly one new row, due at `now` itself |
| Models.CreateRepeated | workers/models.py:66-96 | with `repeat <= NEVER` the table is unchanged; otherwise the call declines exactly when a pending row has `self.task_hash` and the slot, and else appends one row that copies handler, args, kwargs and repeat, with the occurrence hash, the slot, WAITING and no completion time |
| Models.CreateRepeatedIdempotent | workers/models.py:75-96 | with a non-empty stored hash, a second call at the same instant changes nothing |
| Models.CreateRepeatedKeepsOccurrencesUnique | workers/models.py:77-96 | with a non-empty stored hash, the operation keeps `(task_hash, run_at)` unique among pending rows that carry a hash |
| Models.EmptyHashSchedulesTwice | workers/models.py:75-83 | a repeating task with an empty stored hash, called twice, inserts the same occurrence twice, so pending `(task_hash, run_at)` is no longer unique |
| Models.CreateRepeatedCorrected | workers/models.py:66-96 | `create_repeated` with the duplicate check on the hash the new row is stored with |
| Models.CreateRepeatedCorrectedIdempotent | workers/models.py:75-96 | the corrected operation changes nothing on a second call, for every task |
| Models.CreateRepeatedCorrectedKeepsOccurrencesUnique | workers/models.py:75-96 | the corrected operation keeps `(task_hash, run_at)` unique among pending rows that carry a hash, for every task |
| Models.CreateScheduledTask | workers/models.py:107-121 | the call declines exactly when a pending row has the handler and delay, and else appends one row with empty args and kwargs, the delay, `run_at = now + schedule`, `repeat = NEVER`, WAITING and an empty hash |
| Models.CreateScheduledTaskIdempotent | workers/models.py:109-111 | two consecutive calls with the same handler and delay insert at most one row |
| Models.CreateScheduledTaskKeepsOccurrencesUnique | workers/models.py:115-121 | a one-shot row keeps the empty default hash, so it neither adds nor removes a pending `(task_hash, run_at)` match for any non-empty hash, and occurrence uniqueness among hashed rows still holds |
| Models.CreateScheduledTaskKeepsSchedulesUnique | workers/models.py:109-121 | the operation keeps `(handler, schedule)` unique among pending rows |
| Models.CreateRepeatedKeepsSchedulesUnique | workers/models.py:89-96 | a repeated occurrence carries no schedule, so it neither adds nor removes a pending one-shot `(handler, schedule)` |
| Models.OperationsKeepLifecycle | workers/models.py:50-53 | both operations add only waiting rows with no completion time and no error, so the table's lifecycle rule still holds |

## Left out

- SHA-1 and the UTF-8 encoding of the digest input are not modelled. The digest is a parameter whose outputs are 40 lower-case hex characters.
- The clock is read once, as `now`. The source re-reads `timezone.now()` on every loop iteration and in `create_scheduled_task`, and the model does not capture a clock that moves during a call.
- Timestamps are unbounded integers of seconds. The range limits of Python `datetime` (an overflow far in the future) are not modelled.
- Column widths and the `None` delay are not modelled. `schedule` is an `IntegerField` (32-bit on common databases), `repeat` a `BigIntegerField` (64-bit) and `handler` a `CharField` of at most 255 characters, but the model's integers and strings are unbounded, so a create that such a database would reject is modelled as a successful insert. `CreateScheduledTask` takes an integer delay, so `create_scheduled_task(handler, None)` is not expressible: in the source it declines when a pending row of that handler has a NULL schedule (any pending repeated occurrence, for example) and otherwise raises `TypeError` at `timedelta(seconds=None)`.
- The Django ORM (`Task.objects`, `auto_now_add`, `Meta.ordering`) is replaced by a sequence of rows. The filters become predicates over it, and `created_at` is set to `now`.
- Logging, `__repr__` and `__str__` have no behaviour beyond text for people, so they are left out.
- `autodiscover` in workers/util.py imports modules by name at start-up and is not part of this model. The schema migration is not part of this model either.
- Concurrency is not modelled. The check-then-insert race between two callers is outside a model of sequential, atomic calls.
- Transitions from WAITING to COMPLETED or FAILED are not modelled, because no code in the modelled files performs them.
- JSON floats and non-string dict keys are not in the `Json` datatype. The datatype does hold some values `json.dumps` rejects: nesting past Python's recursion limit, and ints past the interpreter's int-to-text digit limit (4300 digits where it is enforced). For those the model returns a hash where the source raises.
- Strings, including the handler name, are sequences of Unicode scalar values. A Python `str` holding a lone surrogate (U+D800 to U+DFFF) cannot be represented: neither the single `\udXXX` escape `json.dumps` writes for it nor the error `encode('utf-8')` raises for such a handler name is modelled.
- The `args` and `kwargs` text columns are held as JSON values. The text stored for a dict passed to `create_scheduled_task`, and the string a row holds after a round trip through the database, are not modelled separately.
- A `repeat` other than the listed choices is accepted. The model, like the code, only distinguishes `repeat <= NEVER` from a positive period.

## Findings

| source | as written | input that shows it | evidently intended | confidence | as-written member | corrected member |
|---|---|---|---|---|---|---|
| workers/models.py:77 | the duplicate check filters on `self.task_hash`, while the new row is stored with `self.task_hash or self.get_hash(...)` (line 75) | a repeating task with `task_hash = ''` and `repeat = HOURLY`, called twice at the same `now` on an empty table | check for a pending row with the hash the new row is stored with, so a second call is a no-op | medium, not executed | Models.EmptyHashSchedulesTwice | Models.CreateRepeatedCorrectedIdempotent |

`Models.CreateRepeated` models the code as written. `Models.CreateRepeatedCorrected` uses the
hash the new row is stored with. `Models.CreateRepeatedCorrectedKeepsOccurrencesUnique` proves,
for every task, the uniqueness that the as-written operation keeps only when the stored hash is
non-empty.
