# Adaptive retrieval-policy selector, modelled in Dafny

This project models the decision core of a retrieval-augmented GHG consultant. That core chooses, per question, how to filter the document store.

The path from a question to a filter has four steps:

1. **State encoder.** A question and an optional company profile become a five-field state: topic bucket, length bucket, sector, size and month. The state then becomes a canonical string key, `json.dumps(state, sort_keys=True)`.
2. **Policy agent.** A tabular epsilon-greedy agent keeps a value per (state key, action). It picks an action by exploring or by exploiting the first maximal value. It learns from feedback with `new = old + alpha * (target - old)`, optionally bootstrapping from a next state.
3. **Filter mapper.** It turns the chosen action and an optional company name into a metadata filter, or into "no constraint".
4. **Reward shaper.** It turns a thumbs-up/down tag or a raw score into a reward.

Page text is cut into overlapping chunks by a sliding window before it is embedded.

## Modules

| file | module | models |
|---|---|---|
| `wrappers.dfy` | `Wrappers` | Python's `None`-or-value (`Option`) |
| `text.dfy` | `Text` | `str.lower()`, the `\s` class of `re`, substring tests, and Python's string order |
| `ordered_dict.dfy` | `OrderedDict` | A Python `dict` as a sequence of pairs with distinct keys, in insertion order: `get`, `d[k] = v`, `dict(pairs)` |
| `json.dfy` | `Json` | `json.dumps(d, sort_keys=True)` for a dictionary of strings, with `ensure_ascii` escaping |
| `state.dfy` | `State` | `state.py`: topic rules, `_bucket`, `encode_state`, `state_key` |
| `retrieval_policies.dfy` | `RetrievalPolicies` | `retrieval_policies.py`: `ACTIONS`, `action_to_filter` |
| `reward.dfy` | `Reward` | `reward.py`: `feedback_reward`, `scale_reward` |
| `rl_agent.dfy` | `Agent` | `rl_agent.py`: `DEFAULT_ACTIONS` and the `RLAgent` class. Its `map` field is the value table, updated in place by its methods. It also holds pure functions on tables that specify those methods. |
| `chunking.dfy` | `Chunking` | `chunk_text`, as a method with a `while` loop |

## How the model is shaped

- **Inputs from outside.**
  - The clock's month is a parameter of `State.EncodeState`.
  - `random.random()` and `random.choice` become the parameters `draw` (in [0, 1)) and `pick` (an index into `actions`) of `Agent.RLAgent.Select`.
  - The content of the table file becomes a `Persisted` value: missing, unreadable, or the stored pairs.
- **Dictionary order.**
  - The agent's entries are ordered sequences of (action, value), because `max` over `dict.items()` returns the first maximal pair in insertion order.
  - Ties go to the first maximal action in entry order, as Python's `max` does; uniformly random tie-breaking is not modelled.
- **Errors become values.**
  - `max` raises `ValueError` on an empty entry. That can only happen for an empty entry read from a stored table. In the model, `Select` returns `None` and `Update` returns `false` in that case.
  - A profile value for sector or size that is not a string (`None`, a number) makes `.lower()` raise `AttributeError`. A profile value is a `State.Value`, a string or not, and `State.EncodeState` returns `None` in that case.
- **Topic patterns.**
  - Each of the four regular expressions is written as data: an alternation of literal words, `head\s*tail`, or `.*`.
  - `State.Matches` states what `re.search` means for them. `State.Search` is the executable test that `_bucket` uses.
  - `State.SearchCorrect` proves the two agree.
- **Values and rewards are `real`.**

## Model

| member | source | states |
|---|---|---|
| Text.LowerChar | src/backend/state.py:24 | An ASCII capital moves to its lower-case letter, every other character is unchanged, and the result is never a capital |
| Text.Lower | src/backend/state.py:24 | `lower()` keeps the length and lower-cases character by character |
| Text.LowerIdempotent | src/backend/state.py:24 | Lower-casing twice equals lower-casing once |
| Text.LessIrreflexive | src/backend/state.py:56 | No key sorts before itself in Python's string order |
| Text.LessTransitive | src/backend/state.py:56 | The string order used by `sort_keys` is transitive |
| Text.LessTotal | src/backend/state.py:56 | Any two different keys are ordered one way or the other |
| Text.LessAsymmetric | src/backend/state.py:56 | Two keys are never ordered both ways |
| OrderedDict.Keys | src/backend/state.py:44-50 | The dict's keys in insertion order, one per pair |
| OrderedDict.Get | src/backend/state.py:38-39 | `d.get(k)` is absent exactly when `k` is not a key; otherwise it is a value paired with `k` |
| OrderedDict.GetUnique | src/backend/rl_agent.py:95 | With distinct keys, `get` of the i-th key returns the i-th value |
| OrderedDict.Put | src/backend/rl_agent.py:104 | The pairs after `d[k] = v`; `PutGet`, `PutExisting` and `PutNew` state what the assignment does |
| OrderedDict.PutGet | src/backend/rl_agent.py:104 | After the assignment the key reads back the new value and every other key reads as before |
| OrderedDict.PutExisting | src/backend/rl_agent.py:104 | Assigning to an existing key keeps the length and every key in its position |
| OrderedDict.PutNew | src/backend/rl_agent.py:104 | Assigning to a new key appends it at the end |
| OrderedDict.Set | src/backend/rl_agent.py:104 | `d[k] = v`: keys and their order unchanged if `k` existed, else `k` appended last; `k` now maps to `v` and every other key's value is unchanged |
| OrderedDict.SetKeepsUnique | src/backend/rl_agent.py:104 | Assignment never creates a duplicate key |
| OrderedDict.SetPairs | src/backend/rl_agent.py:104 | After an assignment every pair is the assigned one or an old one |
| OrderedDict.FromPairs | src/backend/rl_agent.py:54 | Building a dict from pairs (as `json.load` does for an object) gives distinct keys |
| OrderedDict.FromPairsKeysDistinct | src/backend/rl_agent.py:66 | With the given keys all different, the dict keeps exactly those keys in the order given |
| OrderedDict.FromPairsKeys | src/backend/rl_agent.py:54 | A dict built from pairs has exactly the keys some pair carries |
| OrderedDict.FromPairsGet | src/backend/rl_agent.py:54 | In a dict built from pairs, a key reads the last value given for it |
| OrderedDict.FromPairsSubset | src/backend/rl_agent.py:66 | A dict built from pairs holds only given pairs |
| OrderedDict.FromPairsFirst | src/backend/rl_agent.py:66 | The first key given is the dict's first key |
| OrderedDict.LastValueSome | src/backend/rl_agent.py:54 | A key has a last value exactly when some pair carries it |
| OrderedDict.AsMap | src/backend/state.py:54-56 | The dict as a mathematical map: same keys, and each key maps to what `get` returns |
| OrderedDict.AsMapMembers | src/backend/state.py:54-56 | With distinct keys, a pair is in the dict exactly when the map agrees with it |
| Json.HexDigit | src/backend/state.py:56 | A digit below 16 is written as one of `0-9a-f` |
| Json.UEscape | src/backend/state.py:56 | A `\uXXXX` escape is six characters starting with a backslash and `u` |
| Json.EscapeChar | src/backend/state.py:56 | `ensure_ascii` writes each character as non-empty printable ASCII that does not start with `"` |
| Json.Escape | src/backend/state.py:56 | An escaped string is all printable ASCII |
| Json.HexDigitInjective | src/backend/state.py:56 | Different digits are written differently |
| Json.UEscapeInjective | src/backend/state.py:56 | Different code units give different `\u` escapes |
| Json.EscapeCharCases | src/backend/state.py:56 | Every escape is the character itself, a two-character escape standing for it, one `\u` escape, or a surrogate pair of escapes |
| Json.UEscapeHead | src/backend/state.py:56 | A `\u`-escaped character starts with the escape of its first code unit; it is 6 characters long inside the BMP, and otherwise ends with the escape of its low surrogate |
| Json.SurrogatesDetermine | src/backend/state.py:56 | A code point above the BMP is determined by its surrogate pair |
| Json.UEscapesAgree | src/backend/state.py:56 | Two `\u`-escaped characters at the head of the same text are the same character |
| Json.EscapeCharPrefixFree | src/backend/state.py:56 | Character escapes form a prefix-free code: equal texts give equal characters and equal remainders |
| Json.EscapeUnique | src/backend/state.py:56 | An escaped string followed by a closing quote is read back uniquely |
| Json.QuoteUnique | src/backend/state.py:56 | A string literal followed by anything is read back uniquely |
| Json.Quote | src/backend/state.py:56 | A string literal starts and ends with a double quote and is all printable ASCII |
| Json.Member | src/backend/state.py:56 | A `"key": "value"` member starts with a quote |
| Json.Members | src/backend/state.py:56 | The member list is empty exactly when there are no pairs, and otherwise starts with a quote |
| Json.MoreMembers | src/backend/state.py:56 | The members after the first are empty exactly when there are none, and otherwise start with a comma |
| Json.MemberPrefixFree | src/backend/state.py:56 | A member followed by anything is read back uniquely |
| Json.MembersHead | src/backend/state.py:56 | A non-empty member list is the first member followed by the rest |
| Json.CommaDrop | src/backend/state.py:56 | Equal texts after the separating comma mean equal member lists |
| Json.MembersUnique | src/backend/state.py:56 | Different pair lists give different member texts |
| Json.DumpObjectInjective | src/backend/state.py:56 | Different pair lists are serialised to different objects |
| Json.Insert | src/backend/state.py:56 | Insertion into the sorted list adds exactly the one pair |
| Json.SortByKey | src/backend/state.py:56 | `sort_keys` reorders the pairs without adding or losing any (a permutation) |
| Json.InsertSorted | src/backend/state.py:56 | Inserting a pair with a new key keeps the list strictly sorted by key |
| Json.SortByKeySorted | src/backend/state.py:56 | With distinct keys, `sort_keys` writes the pairs in strictly increasing key order |
| Json.SortedArrangementUnique | src/backend/state.py:56 | Two strictly sorted arrangements of the same pairs are identical |
| Json.MembersAscii | src/backend/state.py:56 | A member list is all printable ASCII |
| Json.DumpsSorted | src/backend/state.py:56 | `json.dumps(d, sort_keys=True)` is an object in braces, all printable ASCII |
| Json.DumpsSortedOrderIndependent | src/backend/state.py:54-56 | Two dicts with distinct keys that are equal as maps get the same key, whatever their insertion order |
| Json.DumpsSortedInjective | src/backend/state.py:54-56 | Two dicts with distinct keys that get the same key are equal as maps |
| State.BucketOf | src/backend/state.py:23-29 | `_bucket` returns "other" or the name of one of its rules |
| State.Topic | src/backend/state.py:36 | The topic is one of legal, fin, ghg and other |
| State.LengthBucket | src/backend/state.py:37 | The length band is one of short, medium and long |
| State.ProfileField | src/backend/state.py:38-39 | A profile field that is read successfully has no capital letters |
| State.StateKey | src/backend/state.py:54-56 | The key is a brace-delimited text of printable ASCII |
| State.SkipSpaces | src/backend/state.py:18 | A greedy `\s*` stops at the first non-whitespace character, having skipped only whitespace |
| State.AltAtCorrect | src/backend/state.py:16-19 | The executable test of one alternative agrees with its regular-expression meaning |
| State.SearchCorrect | src/backend/state.py:27 | `re.search` finds a topic pattern exactly when the executable search does |
| State.FirstMatch | src/backend/state.py:25-29 | The bucket is the first rule in order that fires, or "other" when none does |
| State.OtherAlwaysFires | src/backend/state.py:19 | The catch-all `.*` fires on every text |
| State.SinglePatternRule | src/backend/state.py:25-27 | A rule with one pattern fires exactly when that pattern is found |
| State.TopicRule | src/backend/state.py:15-29 | Topic is legal, else fin, else ghg, by whether each pattern matches the lower-cased prompt, else "other"; it is always one of the four names |
| State.LegalKeywordWins | src/backend/state.py:16 | A legal keyword anywhere in the prompt, in any case, makes the topic "legal", whatever else the prompt mentions |
| State.WordAbsent | src/backend/state.py:16-17 | A keyword that starts with a letter triple the text lacks does not occur in it |
| State.NoWordMatches | src/backend/state.py:16-17 | A keyword alternation none of whose words occurs does not match |
| State.ExampleTriplesComplete | src/backend/state.py:16-17 | The example prompt's letter triples are all listed |
| State.ExampleNotLegal | src/backend/state.py:16 | "What is our scope 3 emissions deadline?" matches no legal keyword |
| State.ExampleNotFinance | src/backend/state.py:17 | The example prompt matches no finance keyword |
| State.ExampleGhg | src/backend/state.py:18 | The example prompt matches the ghg pattern ("emission") |
| State.ExampleLowerFront | src/backend/state.py:24 | The example prompt lower-cases as expected (first half) |
| State.ExampleLowerBack | src/backend/state.py:24 | The example prompt lower-cases as expected (second half) |
| State.ExampleLower | src/backend/state.py:24 | The example prompt's lower-cased form is the expected text |
| State.ExampleTopic | src/backend/state.py:36 | The example prompt falls into the "ghg" bucket |
| State.ExampleProfile | src/backend/state.py:38-39 | A profile with sector "energy" and size "large" passes both through |
| State.WorkedExampleEncoding | src/backend/state.py:32-51 | The example prompt with that profile encodes to topic ghg, len short, sector energy, size large |
| State.TopicIgnoresCase | src/backend/state.py:24 | The topic of a prompt equals the topic of its lower-cased form |
| State.LengthBands | src/backend/state.py:37 | "short" iff length < 80, "medium" iff 80 <= length < 200, "long" iff length >= 200 |
| State.RecordKeys | src/backend/state.py:44-50 | The state dict has exactly the keys topic, len, sector, size, month, in that order and distinct |
| State.RecordFields | src/backend/state.py:44-50 | Each of the five keys reads back the value stored for it |
| State.EncodeState | src/backend/state.py:32-51 | Fails exactly when the sector or size value is not a string; otherwise the state has exactly the five distinct fields: topic is the first-match bucket, len the length band, sector and size the lower-cased profile fields, month the given month |
| State.ProfileFieldDefaults | src/backend/state.py:38-39 | Sector/size are "unknown" without a profile or without the field, the profile's value lower-cased when it is a string, and an error when it is not |
| State.EncodedKeyDetermines | src/backend/state.py:54-56 | Two five-field states with the same key agree on every field |
| State.EncodedKeyInjective | src/backend/state.py:32-56 | Two successful encodings get the same key if and only if they agree on topic, length band, sector, size and month |
| RetrievalPolicies.Normalize | src/backend/retrieval_policies.py:25 | `(action or "").lower()`: empty for a null action, otherwise the same length, and never a capital |
| RetrievalPolicies.ActionToFilter | src/backend/retrieval_policies.py:20-45 | broad gives none; legal_only and financial_only give their doc_type; company_only gives the company when a non-empty name is given, else doc_type company; anything else gives none. Every filter has one entry, keyed doc_type or company |
| RetrievalPolicies.ActionToFilterIgnoresCase | src/backend/retrieval_policies.py:25 | An action and its lower-cased form give the same filter |
| RetrievalPolicies.MissingActionIsBroad | src/backend/retrieval_policies.py:25 | A null or empty action fails open to no constraint |
| Reward.NormalizeTag | src/backend/reward.py:9 | `(tag or "").lower()`: empty for a null tag, otherwise the same length, and never a capital |
| Reward.FeedbackReward | src/backend/reward.py:8-14 | +1 iff the lower-cased tag is affirmative, -1 iff negative, 0 iff neither (null included); always in {-1, 0, 1} |
| Reward.PositiveNegativeDisjoint | src/backend/reward.py:10-13 | No tag is both affirmative and negative |
| Reward.FeedbackRewardIgnoresCase | src/backend/reward.py:9 | A tag and its lower-cased form give the same reward |
| Reward.ScaleReward | src/backend/reward.py:16-20 | Within [min, max] whenever min <= max; the identity inside the bounds; min below them, max above; max when the bounds are inverted |
| Reward.ScaleRewardIdempotent | src/backend/reward.py:19 | Clamping twice equals clamping once, for any bounds |
| Reward.ScaleRewardDefaultBounds | src/backend/reward.py:16-19 | With the default bounds the result is in [-1, 1] |
| Agent.DefaultActionsInSync | src/backend/rl_agent.py:18-24 | The agent's default actions equal the filter mapper's `ACTIONS` |
| Agent.ChooseActions | src/backend/rl_agent.py:35 | The action list is never empty: the given list if non-empty, the four defaults otherwise |
| Agent.FreshEntry | src/backend/rl_agent.py:66 | A fresh entry has exactly the agent's actions, each once, all at 0.0, the first action first; with distinct actions its keys are the actions in order |
| Agent.ZeroPairs | src/backend/rl_agent.py:66 | The pairs `(a, 0.0)` carry exactly the actions as keys, in order, all at 0.0 |
| Agent.ZeroPairsKeys | src/backend/rl_agent.py:66 | The dict built from those pairs has the actions as keys, in order when they are distinct |
| Agent.ZeroPairsValues | src/backend/rl_agent.py:66 | The dict built from those pairs holds only 0.0 and starts with the first action |
| Agent.BestAmong | src/backend/rl_agent.py:68-70 | Among the first n pairs, the chosen pair's value is at least every other value and strictly above every earlier one |
| Agent.BestIndex | src/backend/rl_agent.py:68-70 | `max` picks a maximal pair that is strictly above every pair before it (the first maximal) |
| Agent.BestIndexUnique | src/backend/rl_agent.py:68-70 | The first maximal index is the only index with that property |
| Agent.Greedy | src/backend/rl_agent.py:68-70 | `_best_action` fails exactly on an empty entry, and otherwise returns a pair of the entry with the maximal value |
| Agent.FreshEntryGreedy | src/backend/rl_agent.py:66-70 | On a fresh entry exploitation returns the first action |
| Agent.EnsureEntry | src/backend/rl_agent.py:64-66 | Lazy creation adds only the key, leaves every existing entry untouched, and gives an unseen key a fresh entry |
| Agent.ValueOf | src/backend/rl_agent.py:95 | `get(action, 0.0)`: the value paired with the action in the state's entry, or 0.0 when the state or the action is absent |
| Agent.Step | src/backend/rl_agent.py:103 | `old + alpha * (target - old)`; `StepBetween` and `StepContracts` state its properties |
| Agent.Bootstrap | src/backend/rl_agent.py:99-102 | `reward + gamma * best_next`, where `best_next` is a value of the next entry at least every other value in it |
| Agent.TdUpdate | src/backend/rl_agent.py:84-104 | The table only grows, by the state and next-state keys; every other state's entry is unchanged; an unseen next state gets a fresh entry; the update fails exactly when an already stored next entry is empty |
| Agent.Assign | src/backend/rl_agent.py:104 | Writing one cell keeps the keys and every other state's entry, and assigns within the state's entry |
| Agent.TdUpdateFailure | src/backend/rl_agent.py:99-101 | A failed update had a next state and leaves only the lazily created entries |
| Agent.TdUpdateSupervised | src/backend/rl_agent.py:95-97 | Without a next state the cell becomes `old + alpha*(reward - old)`, with `old` 0.0 when absent |
| Agent.ValueOfEnsured | src/backend/rl_agent.py:94-95 | Lazy creation does not change the value the update starts from |
| Agent.TdUpdateBootstrapped | src/backend/rl_agent.py:98-103 | With a next state that is unseen or has a non-empty entry, the update succeeds and its target is `reward + gamma * max` of the (lazily created) next entry |
| Agent.TdUpdateOtherActions | src/backend/rl_agent.py:103-104 | When the next state, if any, is unseen or has a non-empty entry, the update leaves every other action of the state as lazy creation left it |
| Agent.TdUpdateKeepsUnique | src/backend/rl_agent.py:94-104 | Updates keep every entry free of duplicate actions |
| Agent.AssignKeepsUnique | src/backend/rl_agent.py:104 | Writing one cell keeps every entry free of duplicate actions |
| Agent.StepBetween | src/backend/rl_agent.py:103 | For alpha in [0, 1] the new value lies between the old value and the target |
| Agent.StepContracts | src/backend/rl_agent.py:103 | `new - target = (1 - alpha)(old - target)`, so `|new - target| = (1 - alpha)|old - target|` |
| Agent.RepeatClosedForm | src/backend/rl_agent.py:103 | After n updates with the same target, the distance to it is `(1 - alpha)^n` times the initial one |
| Agent.RepeatMonotone | src/backend/rl_agent.py:103 | From below the target, repeated updates rise monotonically and never overshoot; from above, they fall monotonically and never undershoot |
| Agent.MulNonnegative | src/backend/rl_agent.py:103 | A product of non-negative factors is non-negative |
| Agent.ConvergenceExample | src/backend/rl_agent.py:103 | From 0.0, twenty rewards of 1.0 with the default alpha 0.3 bring the value to at least 0.99 |
| Agent.RepeatPositive | src/backend/rl_agent.py:103 | A positive reward lifts a never-updated 0.0 strictly above 0.0 |
| Agent.RepeatAfterStep | src/backend/rl_agent.py:103 | n - 1 updates after one update are n updates |
| Agent.RepeatShift | src/backend/rl_agent.py:103 | Taking the first update separately gives the same values |
| Agent.Supervise | src/backend/rl_agent.py:94-104 | The update without a next state; `SupervisedStep` and `SupervisedStepOthers` state what it does |
| Agent.SupervisedStep | src/backend/rl_agent.py:94-97 | One supervised update moves the trained cell by one step toward the reward |
| Agent.SupervisedStepOthers | src/backend/rl_agent.py:103-104 | One supervised update creates the state's entry and keeps every other action's value |
| Agent.IterateFollowsRepeat | src/backend/rl_agent.py:103 | Iterating an update that moves a cell by one step moves it along the repeated-step sequence |
| Agent.IterateKeepsOthers | src/backend/rl_agent.py:104 | Iterating an update that keeps a cell keeps it |
| Agent.TrainFollowsRepeat | src/backend/rl_agent.py:84-104 | n supervised updates with the same reward bring the cell to the n-th repeated step from its starting value |
| Agent.TrainKeepsOthers | src/backend/rl_agent.py:103-104 | n supervised updates of one action leave every other action where lazy creation put it |
| Agent.TdUpdateKeepsBound | src/backend/rl_agent.py:94-104 | Values stay within a bound the targets respect |
| Agent.DefaultsKeepValuesBounded | src/backend/rl_agent.py:84-104 | With the constructor's default alpha 0.3 and gamma 0.9, rewards in [-1, 1] (every reward `feedback_reward` gives) keep all values in [-10, 10] |
| Agent.ValueOfBounded | src/backend/rl_agent.py:95 | In a bounded table, the value an update starts from is within the bound |
| Agent.BootstrapBounded | src/backend/rl_agent.py:101-102 | The bootstrapped target is within the bound when the reward leaves room for `gamma` times it |
| Agent.AssignKeepsBound | src/backend/rl_agent.py:104 | Writing a value within the bound keeps the table bounded |
| Agent.EnsureKeepsBound | src/backend/rl_agent.py:64-66 | Lazily created entries (all 0.0) keep the table bounded |
| Agent.WorkedExample | src/backend/rl_agent.py:68-104 | With company_only at 0.9 and the rest at 0.0, exploitation picks company_only; feedback "down" with the default alpha 0.3 brings it to 0.33 |
| Agent.Load | src/backend/rl_agent.py:50-57 | A missing or unreadable file gives the empty table; a stored table gives, for each state, the last entry written for it (as `json.load` keeps it), with distinct actions |
| Agent.RLAgent.constructor | src/backend/rl_agent.py:27-47 | Actions default as `actions or DEFAULT_ACTIONS`; epsilon, alpha and gamma are kept; the table is what `_load` returns |
| Agent.RLAgent.EnsureState | src/backend/rl_agent.py:64-66 | The table becomes the lazily extended table, and every entry stays free of duplicates |
| Agent.RLAgent.Select | src/backend/rl_agent.py:73-82 | The state's entry is created lazily; when exploring, the result is `actions[pick]`; when exploiting, it is the first maximal action of the entry, with the error exactly on an empty entry |
| Agent.RLAgent.Update | src/backend/rl_agent.py:84-104 | The new table and success flag are exactly the TD(0) update of the old table (supervised without a next state) |
| Chunking.Stride | src/collect_chunks_locally.py:52 | `max(1, size - overlap)`: at least both, and equal to one of them |
| Chunking.SliceEnd | src/collect_chunks_locally.py:51 | Python's slice end: clipped to the text, and counted from the end when negative |
| Chunking.Chunk | src/collect_chunks_locally.py:51 | For positive size, a chunk is `t[lo .. min(lo + size, len)]`, of length 1 to size; for a non-positive size not reaching past the start, it is empty |
| Chunking.CeilDiv | src/collect_chunks_locally.py:49-53 | The smallest count whose multiple of the step reaches the length: `q*s >= n`, and `(q-1)*s < n` when `q > 0` |
| Chunking.CeilDivUnique | src/collect_chunks_locally.py:49-53 | The chunk count is the unique m with `m*s >= len` and the last start inside the text: `ceil(len / s)` |
| Chunking.Chunks | src/collect_chunks_locally.py:47-53 | There are `ceil(len / step)` chunks, chunk k starting at `k*step` |
| Chunking.StartInside | src/collect_chunks_locally.py:50 | Every chunk's start lies inside the text |
| Chunking.ChunkText | src/collect_chunks_locally.py:47-53 | The loop returns exactly the chunk list `Chunks(t, size, overlap)` |
| Chunking.ChunksEmpty | src/collect_chunks_locally.py:49-53 | Empty text gives no chunks, and non-empty text at least one |
| Chunking.ChunkLengths | src/collect_chunks_locally.py:50-51 | With a positive size every chunk has length between 1 and size |
| Chunking.ChunksCover | src/collect_chunks_locally.py:47-53 | With a positive size and a non-negative overlap, every position p lies in chunk `p / step` at offset `p mod step` |
| Chunking.ChunksOverlap | src/collect_chunks_locally.py:51-52 | Two consecutive full-length chunks share exactly `size - step` characters |
| Chunking.DefaultChunksOverlap | src/collect_chunks_locally.py:47-53 | With the default size 1000 and overlap 200 there are `ceil(len / 800)` chunks, and consecutive full chunks share 200 characters |
| Chunking.NegativeSizeWraps | src/collect_chunks_locally.py:51-52 | A negative size is accepted, and slice ends count from the text's end, as Python's slicing does |

## Left out

- Text.Lower: lower-cases ASCII capitals only, where Python's `str.lower()` also maps non-ASCII letters. No keyword, action or tag is affected: none contains a `k` or ends in `i`, the only ASCII letters a non-ASCII capital lower-cases to. But a sector or size value holding a non-ASCII capital keeps that capital in the model.
- Json.EscapeChar: serialises string values only. Lone surrogates and float values are not modelled. The state dictionary holds only strings.
- File I/O: `_save`, the file read in `_load`, `mkdir` and the default table path are left out. `Agent.Load` takes the file's parsed content, or its absence, as a value. `Agent.RLAgent.Update` does not write the table back.
- Agent.Load: a stored file whose JSON is not an object of objects of numbers is not modelled. A file that does not parse is `Unreadable`.
- Agent.RLAgent.Select: the `ValueError` that `max` raises on an empty entry becomes a `None` result. `Agent.RLAgent.Update` reports it as `false`, leaving the lazily created entries, as the code does before it raises.
- Agent.RLAgent.Select: ties for the maximum go to the first maximal action in entry order, as the code's `max` does. Uniformly random tie-breaking is not modelled.
- OrderedDict.FromPairs: the order of the resulting keys is stated only when the given keys are distinct (`FromPairsKeysDistinct`); with repeated keys only the key set and the last values are stated.
- State.EncodeState: a non-string profile value is an error without its exception type or message; an empty profile dict, which Python treats like `None`, is modelled as a profile with no fields, which gives the same result.
- The threading lock: the model is sequential, and the lock only serialises calls.
- Randomness and the clock: `random.random()`, `random.choice` and `datetime.utcnow()` are parameters (`draw`, `pick`, `month`).
- Floating point: values and rewards are reals, so rounding and NaN are not modelled. `Agent.WorkedExample` therefore gives exactly 0.33.
- src/backend/rag_process.py, src/backend/file_ops.py, src/backend/pipeline.py, src/app/app.py, src/app/ghg_consultant.py and src/backend/__init__.py are not part of this model. They are the vector-store query, file I/O, orchestration, user interface and database maintenance.
- PDF reading, embedding and database inserts in src/collect_chunks_locally.py are not part of this model. Only `chunk_text` is.
