# instrumentio_work, modelled in Dafny

This project models the exercise repository `instrumentio_work`, a set of small
Rust programs, and proves what they actually do. The main part is the
coin-change and vending engine of `2_idioms/src/main.rs`. It is modelled
**as the code is written**, and three consequences of the code are proved as
lemmas:

- `InCoins::total` never reads its receiver. It adds up the squares of the
  denominations, so it is always 3030 (`Coins.Total`, `Coins.TotalIsNotWorth`).
- In `coins_for_sum`, `next` is always `attempt + 1`. So the "peak" arm and the
  `unreachable!` arm are dead, and every coin count taken leaves the target
  short. The function returns `Some` (all zeros) for a target of 0 and `None`
  for every other target (`Coins.CoinsForSum`).
- As a result, `trade` succeeds exactly when the price is 3030
  (`Coins.TradeSucceedsOnlyAt3030`). `VendingMachine::purchase` never
  decrements the stock it checks (`Vending.PurchasesNeverDecrementStock`).

The smaller programs modelled next to it are:

- the duration text codec of the serde exercise;
- the triple rotation solver;
- the doubly linked list;
- the event-sourced `User`;
- the post moderation typestate;
- the immutable user repository;
- the configuration path chosen from the command line and environment;
- the guess-the-number game;
- the `Polyline` validator;
- the `Error` builder with `Server::bind`.

Layout:

| file | module | models |
|---|---|---|
| base.dfy | `Base` | `Option`, `Result`, the `u8`/`u16`/`u32` ranges |
| text.dfy | `Text` | `char::is_whitespace`, `to_digit(10)`, `format!("{}")` of integers, `str::trim` |
| coins.dfy | `Coins` | `COINS`, `InCoins::{money, coins_for_sum, trade, total}` |
| vending.dfy | `Vending` | `Product`, `VendingMachine::purchase` |
| duration.dfy | `DurationCodec` | `parse_duration_string`, the string built by `DurationWrapper::serialize` |
| guessing.dfy | `Guessing` | `game_logic`, `u32::from_str` after `trim`, the game loop of `main` |
| trinity.dfy | `MemReplace` | `Trinity::rotate`, `Solver::resolve` |
| linked_list.dfy | `LinkedList` | `DoublyLinkedList::{new, push_back, pop_front}`, `Display` |
| user_events.dfy | `UserEvents` | the five `EventSourced<_> for User` impls, `ApplyEv`, the `dyn` impl |
| post_moderation.dfy | `PostModeration` | `Post<State>::{publish, allow, delete, deny}` |
| user_repo.dfy | `UserRepo` | `ImmutCollection::{by_id, by_ids, search}` |
| config_path.dfy | `ConfigPath` | `no_args_case`, `args_case` and the choice between them in `main` |
| polyline.dfy | `Polylines` | `Polyline::new`, `TryFrom<Vec<Point>>`, `From<[Point; S]>` |
| error_builder.dfy | `ErrorBuilder` | `Error::{default, new, status, message}`, `Server::bind` |

Representation choices:

- **Coin vectors.** An `InCoins` is a six-element `seq<nat>`. `Worth(c)` is the
  money it holds (Σ `COINS[i] * c[i]`). It is the yardstick the contracts use,
  because the code's own `total` does not measure it.
- **Durations.** A `Duration` is a whole number of nanoseconds.
- **The linked list.** The list of `Arc<Mutex<Node>>` is an arena: a sequence of
  nodes with `Option<nat>` links. A ghost `order` lists the live nodes from
  head to tail, and the list's contents are read along it.
- **The `loop` of the guessing game.** It becomes a function from the input
  lines to the printed lines. It goes through what `get_guess_number` made of
  each line.
- **`&mut self` methods.** They return the updated value.
- **Unordered maps.** The iteration order of `im::HashMap` is a parameter
  listing each key once.

## Model

| member | source | states |
|---|---|---|
| Coins.Total | 2_idioms/src/main.rs:102-104 | `total` is 3030 for every coin vector: it multiplies each denomination by itself and never reads the counts |
| Coins.TotalIsNotWorth | 2_idioms/src/main.rs:102-104 | `total` equals the money actually held only when that money happens to be 3030; for an empty vector they differ |
| Coins.MoneyDecomposes | 2_idioms/src/main.rs:16-24 | the greedy split of `sum` holds exactly `sum`, and every leftover after a denomination is below that denomination |
| Coins.CanonicalIsMoney | 2_idioms/src/main.rs:16-24 | conversely, any coin vector whose leftovers are all below the previous denomination is the greedy split of its own worth, so `money` is the unique canonical decomposition |
| Coins.AttemptScan | 2_idioms/src/main.rs:34-61 | the inner `for attempt` loop either runs out, takes a count between the first attempt and the amount on hand whose value stays strictly below the target, or aborts only when the attempt already reaches the target |
| Coins.CoinsScan | 2_idioms/src/main.rs:28-64 | the outer loop never overshoots (`curr_sum <= sum`, the `assert!` at line 64), keeps `curr_sum` equal to the worth of `curr_coins`, never takes more of a denomination than is held, and never closes a positive gap |
| Coins.CoinsForSum | 2_idioms/src/main.rs:27-71 | on `Some`, the coins are worth exactly `sum` and fit in what is held; and the result is `Some(all zeros)` when `sum` is 0 and `None` otherwise |
| Coins.Pool | 2_idioms/src/main.rs:80-86 | each slot of the pooled coins is the sum of the two inputs' slots |
| Coins.Withdraw | 2_idioms/src/main.rs:90-96 | the remaining coins plus the change give back the pooled coins, slot by slot |
| Coins.Trade | 2_idioms/src/main.rs:75-100 | `None` when the offered coins' `total` is below the price; on `Some`, the coins are only redistributed between the two results, and the change is worth what `total` says is owed |
| Coins.TradeSucceedsOnlyAt3030 | 2_idioms/src/main.rs:74-104 | `trade` succeeds iff the price is 3030, and then returns the pooled coins and an all-zero change |
| Coins.TradeConservesWorth | 2_idioms/src/main.rs:80-98 | a successful trade keeps the total worth of the coins: what the machine keeps plus the change equals what both sides put in |
| Vending.Purchase | 2_idioms/src/main.rs:113-124 | needs the product in the table (the index panics otherwise); the table never changes; `None` leaves the machine untouched, and happens when the stock is at most 1 or the offered `total` is below the price; `Some` iff the stock is above 1 and the trade succeeds, and then the machine keeps the trade's first result and hands back `[what]` with the trade's change |
| Vending.PurchaseSucceedsOnlyAt3030 | 2_idioms/src/main.rs:113-124 | a purchase succeeds iff more than one unit is stocked and the price is 3030, and then returns no change |
| Vending.PurchasesNeverDecrementStock | 2_idioms/src/main.rs:113-124 | after any series of purchases the stock table is exactly what it was |
| Text.NatToString | 3_ecosystem/3_6_serde/src/main.rs:58-70 | `format!("{}")` of a number is a non-empty run of decimal digits without a leading zero |
| Text.AccumulateNatToString | 3_ecosystem/3_6_serde/src/main.rs:87-88 | reading back the printed digits with `10*current + d` yields the number |
| Text.Trim | 3_ecosystem/3_1_testing/src/main.rs:54 | `trim` never lengthens the line, and what it returns, when not empty, starts and ends with non-whitespace |
| Text.TrimIsSlice | 3_ecosystem/3_1_testing/src/main.rs:54 | what `trim` returns is a slice of the line, and everything cut off around it is whitespace |
| DurationCodec.RemoveWhitespace | 3_ecosystem/3_6_serde/src/main.rs:83 | the filtered characters contain no whitespace and are no more than the input; which characters are kept is stated by the two lemmas below |
| DurationCodec.RemoveWhitespaceAppend | 3_ecosystem/3_6_serde/src/main.rs:83 | the filter works character by character: filtering a concatenation concatenates the filtered parts |
| DurationCodec.RemoveWhitespaceSingle | 3_ecosystem/3_6_serde/src/main.rs:83 | one character is dropped iff it is whitespace, and kept unchanged otherwise |
| DurationCodec.ParseIgnoresWhitespace | 3_ecosystem/3_6_serde/src/main.rs:83 | whitespace inserted anywhere in the input does not change what it parses to |
| DurationCodec.ParseLoop | 3_ecosystem/3_6_serde/src/main.rs:84-111 | the character loop either fails with `"Invalid duration unit"` or returns at least the duration already parsed |
| DurationCodec.ParseDuration | 3_ecosystem/3_6_serde/src/main.rs:78-114 | the only error is `"Invalid duration unit"`, and the empty string parses to a zero duration |
| DurationCodec.ParseFailsIffInvalidUnit | 3_ecosystem/3_6_serde/src/main.rs:83-99 | parsing fails iff some non-whitespace character is neither a digit nor one of `s`, `m`, `h` |
| DurationCodec.ParseLoopFailsIffInvalidUnit | 3_ecosystem/3_6_serde/src/main.rs:84-106 | the character loop fails iff it meets a character other than a digit, `s`, `m` or `h` |
| DurationCodec.RemoveWhitespaceKeepsInvalidUnits | 3_ecosystem/3_6_serde/src/main.rs:83 | dropping whitespace neither adds nor removes an invalid unit character |
| DurationCodec.ParseLoopDigits | 3_ecosystem/3_6_serde/src/main.rs:87-88 | a run of digits only accumulates `10*current + d` and adds nothing to the duration |
| DurationCodec.BareNumberIsSeconds | 3_ecosystem/3_6_serde/src/main.rs:109-113 | a number with no unit parses as that many seconds |
| DurationCodec.UnitAt | 3_ecosystem/3_6_serde/src/main.rs:90-98 | a unit is recognised exactly when the character is `s`, `m` or `h`, and the recognised unit's suffix is what the text starts with |
| DurationCodec.ParseUnit | 3_ecosystem/3_6_serde/src/main.rs:90-101 | `s` adds seconds, `m` followed by `s` adds milliseconds and consumes the `s`, any other `m` adds minutes, `h` adds hours, and the number resets to 0 |
| DurationCodec.ParseComponent | 3_ecosystem/3_6_serde/src/main.rs:87-101 | a number followed by its unit adds exactly that number of units to the parsed duration |
| DurationCodec.Component | 3_ecosystem/3_6_serde/src/main.rs:57-71 | a component is empty iff its number is zero, and a non-empty one starts with a digit |
| DurationCodec.ComponentHasNoWhitespace | 3_ecosystem/3_6_serde/src/main.rs:57-71 | no component holds whitespace |
| DurationCodec.Render | 3_ecosystem/3_6_serde/src/main.rs:56-70 | the five components written in order hold no whitespace and are empty iff every part is zero |
| DurationCodec.Split | 3_ecosystem/3_6_serde/src/main.rs:45-51 | minutes and seconds are below 60, milliseconds below 1000 and the nanosecond rest below 1,000,000, and the five parts recombine to the duration |
| DurationCodec.Serialize | 3_ecosystem/3_6_serde/src/main.rs:41-73 | the serialised text holds no whitespace, and it is empty iff the duration is zero |
| DurationCodec.ParseWritten | 3_ecosystem/3_6_serde/src/main.rs:84-113 | parsing the `h`, `m`, `s` and `ms` components written in that order gives back their combined value |
| DurationCodec.RoundTrip | 3_ecosystem/3_6_serde/src/main.rs:41-114 | parsing the serialised form of a duration with no sub-millisecond part gives the same duration |
| DurationCodec.SubMillisecondsDoNotRoundTrip | 3_ecosystem/3_6_serde/src/main.rs:69-70 | a duration with a sub-millisecond part serialises with `ns`, which the parser rejects as an invalid unit |
| Guessing.GameLogic | 3_ecosystem/3_1_testing/src/main.rs:4-10 | "Too small!" below the secret, "Too big!" above it, "You win!" on it; the flag is true iff the guess equals the secret, as the unit and property tests check (lines 63-82) |
| Guessing.ParseU32NatToString | 3_ecosystem/3_1_testing/src/main.rs:54 | a number in the `u32` range, written out in decimal, parses back to itself |
| Guessing.Round | 3_ecosystem/3_1_testing/src/main.rs:18-30 | one pass of the loop ends the game iff `get_guess_number` returned the secret; "You win!" is printed iff it does, and then it is the last line of the pass; the prompt is not part of what follows it |
| Guessing.Echo | 3_ecosystem/3_1_testing/src/main.rs:25 | the echo is "You guessed: " followed by the guess in decimal, and it is never the prompt or the winning message |
| Guessing.EchoShowsGuess | 3_ecosystem/3_1_testing/src/main.rs:25 | the digits after the label parse back to the guess |
| Guessing.RoundPrints | 3_ecosystem/3_1_testing/src/main.rs:20-29 | an unparsable line prints nothing more; a number prints "You guessed: n" followed by the verdict |
| Guessing.Transcript | 3_ecosystem/3_1_testing/src/main.rs:12-13 | the output starts with "Guess the number!" |
| Guessing.StopsAtFirstWin | 3_ecosystem/3_1_testing/src/main.rs:17-31 | the first line that parses to the secret ends the game: later lines do not matter and the output ends with "You win!" |
| Guessing.PlayStopsAtFirstWin | 3_ecosystem/3_1_testing/src/main.rs:17-31 | for any sequence of parsed guesses, the loop's output up to the first guess equal to the secret is the whole output, and it ends with "You win!" |
| Guessing.PlayWithoutWin | 3_ecosystem/3_1_testing/src/main.rs:17-31 | guesses that all miss the secret yield output with one prompt per guess and no "You win!" |
| Guessing.NoWinWithoutSecret | 3_ecosystem/3_1_testing/src/main.rs:17-31 | if no line parses to the secret, "You win!" is never printed and exactly one prompt is printed per input line |
| MemReplace.Rotate | 2_idioms/2_2_mem_replace/src/main.rs:23-26 | the two swaps turn `(a, b, c)` into `(b, c, a)` |
| MemReplace.RotateThriceIsIdentity | 2_idioms/2_2_mem_replace/src/main.rs:23-26 | three rotations give back the original triple |
| MemReplace.Resolve | 2_idioms/2_2_mem_replace/src/main.rs:36-48 | `expected` and the number and order of triples are kept; a triple that some rotation by 0, 1 or 2 steps makes equal to `expected` ends as `expected`, and any other triple ends as it started |
| LinkedList.New | 1_concepts/src/main.rs:30-35 | the new list has no head and no tail and holds nothing |
| LinkedList.PushBack | 1_concepts/src/main.rs:38-49 | pushing keeps the list's links well formed |
| LinkedList.PushBackAppends | 1_concepts/src/main.rs:38-49 | pushing appends the element at the end of the contents; on an empty list the new node becomes both head and tail |
| LinkedList.PopFront | 1_concepts/src/main.rs:52-68 | popping keeps the links well formed, and returns `None` iff the list has no head |
| LinkedList.PopFrontRemovesFirst | 1_concepts/src/main.rs:52-68 | on an empty list nothing changes and `None` comes back; otherwise the first element comes back and the links form a list of the rest, so the new head's `prev` is cleared and popping the last element clears the tail |
| LinkedList.PopFrontReleasesNode | 1_concepts/src/main.rs:53-63 | after popping, neither the head, the tail nor any link of a remaining node refers to the popped node, so the list was its only owner and `Arc::into_inner(head_arc).unwrap()` cannot fail |
| LinkedList.HeadNoneIffTailNone | 1_concepts/src/main.rs:30-60 | in any list built by these operations, head is `None` iff tail is `None` iff the list is empty |
| LinkedList.DisplayShowsContents | 1_concepts/src/main.rs:72-90 | `Display` prints `DoublyLinkedList: [`, the elements in order joined by ` <-> `, and `]` |
| LinkedList.MainRun | 1_concepts/src/main.rs:92-102 | pushing 1, 2, 3 and popping once returns 1 and prints `DoublyLinkedList: [2 <-> 3]` |
| UserEvents.ApplyCreated | 2_idioms/2_5_exhaustivity/src/lib.rs:48-55 | `UserCreated` sets the id, the creation time and the last activity to the event's time; nothing else changes |
| UserEvents.ApplyNameUpdated | 2_idioms/2_5_exhaustivity/src/lib.rs:57-66 | `UserNameUpdated` sets only the name |
| UserEvents.ApplyBecameOnline | 2_idioms/2_5_exhaustivity/src/lib.rs:68-73 | `UserBecameOnline` sets only `online_since` |
| UserEvents.ApplyBecameOffline | 2_idioms/2_5_exhaustivity/src/lib.rs:75-81 | `UserBecameOffline` clears `online_since` and sets the last activity; nothing else changes |
| UserEvents.ApplyDeleted | 2_idioms/2_5_exhaustivity/src/lib.rs:83-89 | `UserDeleted` sets the deletion time and the last activity; nothing else changes |
| UserEvents.DynamicEqualsDirect | 2_idioms/2_5_exhaustivity/src/lib.rs:16-27 | applying an event through `&dyn ApplyEv<User>` is the same as calling that event's own impl |
| UserEvents.UserIdIsNotChecked | 2_idioms/2_5_exhaustivity/src/lib.rs:57-89 | apart from `UserCreated`, the user id an event carries makes no difference: no handler checks it against the user |
| UserEvents.ApplyIsIdempotent | 2_idioms/2_5_exhaustivity/src/lib.rs:48-89 | applying the same event twice has the same effect as applying it once |
| UserEvents.NameUpdateCommutes | 2_idioms/2_5_exhaustivity/src/lib.rs:48-89 | a name update commutes with every other kind of event |
| UserEvents.DeletionIsPermanent | 2_idioms/2_5_exhaustivity/src/lib.rs:48-89 | no event clears `deleted_at` once it is set |
| UserEvents.CreationTimeNeedsCreated | 2_idioms/2_5_exhaustivity/src/lib.rs:48-89 | without a `UserCreated` event, the id and the creation time never change |
| PostModeration.Publish | 2_idioms/2_1_type_safety/src/main.rs:44-54 | only a `New` post can be published; it becomes `Unmoderated` with its data unchanged |
| PostModeration.Allow | 2_idioms/2_1_type_safety/src/main.rs:56-66 | only an `Unmoderated` post can be allowed; it becomes `Published` with its data unchanged |
| PostModeration.Delete | 2_idioms/2_1_type_safety/src/main.rs:68-78 | only a `Published` post can be deleted; it becomes `Deleted` with its data unchanged |
| PostModeration.Deny | 2_idioms/2_1_type_safety/src/main.rs:79-89 | only a `Deleted` post can be denied; it becomes `Unmoderated` with its data unchanged |
| PostModeration.StepFacts | 2_idioms/2_1_type_safety/src/main.rs:44-89 | each state has exactly one method; no transition leads to `New`; every transition keeps id, user id, title and body |
| PostModeration.RunKeepsContent | 2_idioms/2_1_type_safety/src/main.rs:44-89 | along any chain of calls that type-checks the post's data never changes, and after the first call it is never `New` again |
| PostModeration.ModerationCycle | 2_idioms/2_1_type_safety/src/main.rs:56-89 | allow, delete and deny bring an unmoderated post back to the same post |
| UserRepo.Find | 3_ecosystem/3_5_collections/src/main.rs:31 | the search over the keys finds a user iff the id is among the keys visited, and it is the one stored under that id |
| UserRepo.ById | 3_ecosystem/3_5_collections/src/main.rs:30-35 | `by_id` returns the user stored under the id, or `None` if there is none, whatever the iteration order |
| UserRepo.ByIds | 3_ecosystem/3_5_collections/src/main.rs:37-42 | `by_ids` returns at most one user per requested id, each a stored user |
| UserRepo.ByIdsAppend | 3_ecosystem/3_5_collections/src/main.rs:37-42 | the answer for two id lists one after the other is the two answers one after the other |
| UserRepo.ByIdsLooksUpEach | 3_ecosystem/3_5_collections/src/main.rs:37-42 | when every id is present, the answer is the stored users in the requested order; absent ids are skipped |
| UserRepo.Search | 3_ecosystem/3_5_collections/src/main.rs:44-52 | every user returned has a name containing the pattern, comes from the collection, and every stored user whose name contains it is returned |
| UserRepo.SearchFindsExactly | 3_ecosystem/3_5_collections/src/main.rs:44-52 | as a set, the search result is exactly the stored users whose name contains the pattern, whatever the iteration order |
| UserRepo.SampleQueries | 3_ecosystem/3_5_collections/src/main.rs:65-105 | the tests' three expectations hold for every iteration order of the sample collection |
| ConfigPath.NoArgsCase | 1_concepts/1_4_cow/src/main.rs:9-18 | a non-empty `APP_CONF` is the path; an empty one is the error "APP_CONF value is empty"; an unset one gives `/etc/app/app.conf` |
| ConfigPath.ArgsCase | 1_concepts/1_4_cow/src/main.rs:20-45 | the first adjacent pair `("--conf", p)` decides: `p` when non-empty, the error "Err: empty conf argument" when empty; with no such pair (including `--conf` as the last argument) the environment rule decides |
| ConfigPath.ChoosePath | 1_concepts/1_4_cow/src/main.rs:5-51 | with fewer than two arguments, counting the program name, the environment rule decides; otherwise the first `--conf` pair does, falling back to the environment rule |
| Polylines.New | 1_concepts/1_1_default_clone_copy/src/main.rs:19-23 | `new` yields the two given points followed by the rest, so at least two points |
| Polylines.TryFrom | 1_concepts/1_1_default_clone_copy/src/main.rs:43-53 | `try_from` fails with "must have at least 2 points" iff there are fewer than two points, and otherwise wraps the vector unchanged |
| Polylines.FromArray | 1_concepts/1_1_default_clone_copy/src/main.rs:34-41 | the array conversion exists only for more than one point and keeps the array as it is |
| Polylines.TryFromAgreesWithFromArray | 1_concepts/1_1_default_clone_copy/src/main.rs:34-53 | the checked and the array conversions accept the same inputs and build the same line |
| Polylines.TryFromAcceptsValid | 1_concepts/1_1_default_clone_copy/src/main.rs:19-53 | every line of two or more points, and every line built by `new`, is accepted back by `try_from` |
| Polylines.MainLinesAgree | 1_concepts/1_1_default_clone_copy/src/main.rs:55-64 | the three lines `main` builds from the same two points are equal |
| ErrorBuilder.Default | 2_idioms/2_4_generic_in_type_out/src/main.rs:17-26 | the default error is code "UNKNOWN", status 500, message "Unknown error has happened." |
| ErrorBuilder.New | 2_idioms/2_4_generic_in_type_out/src/main.rs:29-33 | `new(code)` is the default error with only the code replaced |
| ErrorBuilder.Status | 2_idioms/2_4_generic_in_type_out/src/main.rs:35-38 | `status(s)` replaces only the status |
| ErrorBuilder.Message | 2_idioms/2_4_generic_in_type_out/src/main.rs:40-43 | `message(m)` replaces only the message |
| ErrorBuilder.SettersCommuteAndOverride | 2_idioms/2_4_generic_in_type_out/src/main.rs:35-43 | the two setters commute, and a second call to the same setter overrides the first |
| ErrorBuilder.BuilderReachesEveryError | 2_idioms/2_4_generic_in_type_out/src/main.rs:29-43 | every error can be built from `new` and the two setters |
| ErrorBuilder.MainChain | 2_idioms/2_4_generic_in_type_out/src/main.rs:6-7 | `Error::new("NO_USER")` then `.status(404).message("User not found")` gives exactly that error |
| ErrorBuilder.Bind | 2_idioms/2_4_generic_in_type_out/src/main.rs:50-52 | `bind` sets the address to the given ip and port |
| ErrorBuilder.LastBindWins | 2_idioms/2_4_generic_in_type_out/src/main.rs:50-52 | a later bind replaces any earlier address, so the server state after a bind does not depend on what it was before |
| ErrorBuilder.BindLoopback | 2_idioms/2_4_generic_in_type_out/src/main.rs:64-69 | binding `127.0.0.1` and port 8080 shows as `127.0.0.1:8080` |

## Left out

- Fixed-width overflow: counts, sums and prices are unbounded `nat`s. None
  of these overflows is modelled:
  - `u32` overflow in `total`, `trade` or `money`;
  - `u32` overflow of `attempt * nominal`, `next * nominal` and
    `curr_sum +=` in `coins_for_sum` (`2_idioms/src/main.rs:37,43,52`);
  - `u64` overflow of `current_value` in the duration parser;
  - the panic of the `Duration` additions `parsed_duration += …` on
    overflow (`3_ecosystem/3_6_serde/src/main.rs:91-97,110`). The subtraction
  `sum - curr_sum` cannot underflow, because `Coins.CoinsScan` keeps
  `curr_sum <= sum`.
- Panics become preconditions or dead branches. The `HashMap` index in
  `purchase` is the `requires` of `Vending.Purchase`. The `unreachable!` arms in
  `coins_for_sum` and in the argument window are proved dead.
- Floating point: `Point` coordinates are `real`. The code only copies them.
- Input and output:
  - standard input and the printed lines of the guessing game become a list
    of lines in and a list of lines out;
  - end of input (where `read_line` returns an empty line forever) is not
    modelled;
  - the secret number, which `main` parses from the command line, is a
    parameter.
- `std::env::args()` and `APP_CONF` are parameters of `ConfigPath.ChoosePath`.
  A non-Unicode `APP_CONF` counts as unset; the code's `env::var` also returns
  an error in that case.
- The `Arc<Mutex<_>>` sharing and locking of the linked list are not
  modelled. Nodes live in an arena indexed by number, and a popped node stays
  in the arena, unreachable.
- `Duration` arithmetic: a duration is a whole number of nanoseconds.
  `as_secs`, `subsec_millis` and `subsec_nanos` are divisions.
- The serde, TOML, YAML and JSON plumbing around the duration codec, and the
  file read in its tests, are not modelled.
- The hash-map iteration order of `im::HashMap` is not visible, so it is a
  parameter. Every property is proved for every order.
- `Display` of an IPv6 socket address (`[::1]:9911`) is not modelled: it needs
  the zero-run compression of RFC 5952. Binding an IPv6 address is modelled.
- A stock table with restocking, and an Empty/CanAccept/Full machine state, do
  not exist in this code and are not modelled.
- The rest of the repository is not modelled:
  - the regex and pest parsers;
  - chrono dates;
  - randomness and hashing;
  - the database, logging, threads and async download exercises;
  - the `Rc`/`RefCell`, dispatch, sizedness, sealing, phantom and macro
    exercises.
