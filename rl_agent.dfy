/**
 * The tabular epsilon-greedy agent. The value table maps a state key to an
 * entry: the actions' values in insertion order, since the greedy choice takes
 * the first maximal action in that order. Randomness is supplied by the
 * caller: `draw` in [0, 1) stands for `random.random()` and `pick` for the
 * index `random.choice` would return.
 */
module Agent {
  import opened Wrappers
  import opened OrderedDict
  import State
  import RetrievalPolicies
  import Reward
  import Text

  /** The values of one state, in insertion order. */
  type Entry = seq<(string, real)>

  /** The whole value table: state key to entry. */
  type Table = map<string, Entry>

  /** `DEFAULT_ACTIONS` */
  const DefaultActions: seq<string> := ["broad", "legal_only", "financial_only", "company_only"]

  /** The constructor's default exploration rate, learning rate and discount. */
  const DefaultEpsilon: real := 0.2
  const DefaultAlpha: real := 0.3
  const DefaultGamma: real := 0.9

  /** The agent's default actions are the filter mapper's vocabulary. */
  lemma DefaultActionsInSync()
    ensures DefaultActions == RetrievalPolicies.Actions
  {
  }

  /** `actions or DEFAULT_ACTIONS`: a missing or empty list falls back to the defaults. */
  function ChooseActions(actions: Option<seq<string>>): (r: seq<string>)
    ensures |r| > 0
    ensures actions.Some? && actions.value != [] ==> r == actions.value
    ensures actions.None? || actions.value == [] ==> r == DefaultActions
  {
    if actions.Some? && actions.value != [] then actions.value else DefaultActions
  }

  /** `{a: 0.0 for a in actions}` */
  function FreshEntry(actions: seq<string>): (e: Entry)
    ensures UniqueKeys(e)
    ensures forall a :: a in Keys(e) <==> a in actions
    ensures forall j :: 0 <= j < |e| ==> e[j].1 == 0.0
    ensures |actions| > 0 ==> e != [] && e[0] == (actions[0], 0.0)
    ensures Distinct(actions) ==> Keys(e) == actions
  {
    ZeroPairsKeys(actions);
    ZeroPairsValues(actions);
    FromPairs(ZeroPairs(actions))
  }

  /** The pairs `(a, 0.0)` for `a` in `actions`, in order. */
  function ZeroPairs(actions: seq<string>): (ps: seq<(string, real)>)
    ensures Keys(ps) == actions
    ensures forall j :: 0 <= j < |ps| ==> ps[j].1 == 0.0
  {
    seq(|actions|, i requires 0 <= i < |actions| => (actions[i], 0.0))
  }

  /** The table built from the zero pairs has the actions as keys, in order when they are distinct. */
  lemma ZeroPairsKeys(actions: seq<string>)
    ensures forall a :: a in Keys(FromPairs(ZeroPairs(actions))) <==> a in actions
    ensures Distinct(actions) ==> Keys(FromPairs(ZeroPairs(actions))) == actions
  {
    FromPairsKeys(ZeroPairs(actions));
    if Distinct(actions) {
      FromPairsKeysDistinct(ZeroPairs(actions));
    }
  }

  /** The table built from the zero pairs holds only zeros and starts with the first action. */
  lemma ZeroPairsValues(actions: seq<string>)
    ensures forall j :: 0 <= j < |FromPairs(ZeroPairs(actions))| ==> FromPairs(ZeroPairs(actions))[j].1 == 0.0
    ensures |actions| > 0 ==> FromPairs(ZeroPairs(actions)) != [] && FromPairs(ZeroPairs(actions))[0] == (actions[0], 0.0)
  {
    var ps := ZeroPairs(actions);
    var e := FromPairs(ps);
    FromPairsSubset(ps);
    forall j | 0 <= j < |e| ensures e[j].1 == 0.0 {
      assert e[j] in ps;
    }
    if |actions| > 0 {
      FromPairsFirst(ps);
      assert e[0] in ps;
      assert Keys(ps)[0] == actions[0];
    }
  }

  /**
   * The index `max(entry.items(), key=value)` settles on among the first `n`
   * pairs: a later pair replaces the current best only when strictly larger.
   */
  function BestAmong(e: Entry, n: nat): (i: nat)
    requires 0 < n <= |e|
    ensures i < n
    ensures forall j :: 0 <= j < n ==> e[j].1 <= e[i].1
    ensures forall j :: 0 <= j < i ==> e[j].1 < e[i].1
  {
    if n == 1 then 0
    else
      var b := BestAmong(e, n - 1);
      if e[n - 1].1 > e[b].1 then n - 1 else b
  }

  /** The index of the first maximal value of a non-empty entry. */
  function BestIndex(e: Entry): (i: nat)
    requires e != []
    ensures i < |e|
    ensures forall j :: 0 <= j < |e| ==> e[j].1 <= e[i].1
    ensures forall j :: 0 <= j < i ==> e[j].1 < e[i].1
  {
    BestAmong(e, |e|)
  }

  /** Only one index is both maximal and ahead of every other maximal index. */
  lemma BestIndexUnique(e: Entry, i: nat)
    requires i < |e|
    requires forall j :: 0 <= j < |e| ==> e[j].1 <= e[i].1
    requires forall j :: 0 <= j < i ==> e[j].1 < e[i].1
    ensures BestIndex(e) == i
  {
  }

  /** `_best_action`: the first (action, value) pair of maximal value; `None` where `max` raises. */
  function Greedy(e: Entry): (r: Option<(string, real)>)
    ensures r.None? <==> e == []
    ensures r.Some? ==> r.value in e
    ensures r.Some? ==> forall j :: 0 <= j < |e| ==> e[j].1 <= r.value.1
  {
    if e == [] then None else Some(e[BestIndex(e)])
  }

  /** On a fresh entry every value is 0.0, so exploitation picks the first action. */
  lemma FreshEntryGreedy(actions: seq<string>)
    requires |actions| > 0
    ensures Greedy(FreshEntry(actions)) == Some((actions[0], 0.0))
  {
    var e := FreshEntry(actions);
    BestIndexUnique(e, 0);
  }

  /** `_ensure_state`: an unseen key gets a fresh entry, a known key is left alone. */
  function EnsureEntry(t: Table, skey: string, actions: seq<string>): (r: Table)
    ensures forall k :: k in r <==> k in t || k == skey
    ensures forall k :: k in t ==> r[k] == t[k]
    ensures skey !in t ==> r[skey] == FreshEntry(actions)
  {
    if skey in t then t else t[skey := FreshEntry(actions)]
  }

  /** `old + alpha * (target - old)` */
  function Step(current: real, target: real, alpha: real): real {
    current + alpha * (target - current)
  }

  /** `self._q[skey].get(action, 0.0)`: the stored value, or 0.0 when there is none. */
  function ValueOf(t: Table, skey: string, action: string): (v: real)
    ensures skey in t && action in Keys(t[skey]) ==> (action, v) in t[skey]
    ensures skey !in t || action !in Keys(t[skey]) ==> v == 0.0
  {
    if skey in t then Get(t[skey], action).GetOr(0.0) else 0.0
  }

  /** Every entry of the table has pairwise different actions. */
  predicate EntriesUnique(t: Table) {
    forall k :: k in t ==> UniqueKeys(t[k])
  }

  /**
   * One call of `update` on table `t` for state key `skey`, with `next` the key
   * of the next state if one is given. The flag is false where `max` raises on
   * an empty next entry; the table then holds the lazily created entries only.
   */
  function TdUpdate(t: Table, actions: seq<string>, alpha: real, gamma: real,
                    skey: string, action: string, reward: real, next: Option<string>): (r: (Table, bool))
    requires |actions| > 0
    ensures forall k :: k in r.0 <==> k in t || k == skey || (next.Some? && k == next.value)
    ensures forall k :: k in t && k != skey ==> r.0[k] == t[k]
    ensures !r.1 <==> next.Some? && next.value in t && t[next.value] == []
    ensures skey !in t && (next.None? || next.value != skey) ==> skey in r.0
    ensures next.Some? && next.value !in t && next.value != skey ==> r.0[next.value] == FreshEntry(actions)
  {
    var t1 := EnsureEntry(t, skey, actions);
    var current := ValueOf(t1, skey, action);
    if next.None? then
      (Supervise(t, actions, alpha, skey, action, reward), true)
    else
      var t2 := EnsureEntry(t1, next.value, actions);
      if t2[next.value] == [] then (t2, false)
      else (Assign(t2, skey, action, Step(current, Bootstrap(t2[next.value], reward, gamma), alpha)), true)
  }

  /** The TD(0) target `reward + gamma * max_a' Q[s'][a']`. */
  function Bootstrap(n: Entry, reward: real, gamma: real): (target: real)
    requires n != []
    ensures exists x :: x in n && target == reward + gamma * x.1 && forall y :: y in n ==> y.1 <= x.1
  {
    var best := Greedy(n).value;
    assert forall y :: y in n ==> y.1 <= best.1 by {
      forall y | y in n ensures y.1 <= best.1 {
        var j :| 0 <= j < |n| && n[j] == y;
      }
    }
    reward + gamma * best.1
  }

  /** `self._q[skey][action] = v` */
  function Assign(t: Table, skey: string, action: string, v: real): (r: Table)
    requires skey in t
    ensures forall k :: k in r <==> k in t
    ensures forall k :: k in t && k != skey ==> r[k] == t[k]
    ensures r[skey] == Set(t[skey], action, v)
  {
    t[skey := Set(t[skey], action, v)]
  }

  /** A failed update leaves only the lazily created entries behind. */
  lemma TdUpdateFailure(t: Table, actions: seq<string>, alpha: real, gamma: real,
                        skey: string, action: string, reward: real, next: Option<string>)
    requires |actions| > 0
    requires !TdUpdate(t, actions, alpha, gamma, skey, action, reward, next).1
    ensures next.Some?
    ensures TdUpdate(t, actions, alpha, gamma, skey, action, reward, next).0
              == EnsureEntry(EnsureEntry(t, skey, actions), next.value, actions)
  {
  }

  /** Without a next state the target is the reward itself. */
  lemma TdUpdateSupervised(t: Table, actions: seq<string>, alpha: real, gamma: real,
                           skey: string, action: string, reward: real)
    requires |actions| > 0
    ensures var r := TdUpdate(t, actions, alpha, gamma, skey, action, reward, None);
            r.1 && Get(r.0[skey], action) == Some(Step(ValueOf(t, skey, action), reward, alpha))
  {
  }

  /** Creating an entry lazily does not change the value an update starts from. */
  lemma ValueOfEnsured(t: Table, skey: string, actions: seq<string>, action: string)
    ensures ValueOf(EnsureEntry(t, skey, actions), skey, action) == ValueOf(t, skey, action)
  {
    if skey !in t {
      var e := FreshEntry(actions);
      var g := Get(e, action);
      if g.Some? {
        var j :| 0 <= j < |e| && e[j] == (action, g.value);
      }
    }
  }

  /** With a next state the target is the reward plus `gamma` times the next entry's maximum. */
  lemma TdUpdateBootstrapped(t: Table, actions: seq<string>, alpha: real, gamma: real,
                             skey: string, action: string, reward: real, next: string)
    requires |actions| > 0
    requires next !in t || t[next] != []
    ensures var n := EnsureEntry(EnsureEntry(t, skey, actions), next, actions)[next];
            n != [] &&
            Get(TdUpdate(t, actions, alpha, gamma, skey, action, reward, Some(next)).0[skey], action)
              == Some(Step(ValueOf(t, skey, action), Bootstrap(n, reward, gamma), alpha))
  {
    var t1 := EnsureEntry(t, skey, actions);
    var t2 := EnsureEntry(t1, next, actions);
    var n := t2[next];
    assert n != [];
    ValueOfEnsured(t, skey, actions, action);
    var v := Step(ValueOf(t1, skey, action), Bootstrap(n, reward, gamma), alpha);
    assert TdUpdate(t, actions, alpha, gamma, skey, action, reward, Some(next)) == (Assign(t2, skey, action, v), true);
    assert Assign(t2, skey, action, v)[skey] == Set(t2[skey], action, v);
  }

  /** An update that does not fail touches no other action of the state. */
  lemma TdUpdateOtherActions(t: Table, actions: seq<string>, alpha: real, gamma: real,
                             skey: string, action: string, reward: real, next: Option<string>)
    requires |actions| > 0
    requires next.None? || next.value !in t || t[next.value] != []
    ensures forall a :: a != action ==>
              Get(TdUpdate(t, actions, alpha, gamma, skey, action, reward, next).0[skey], a)
                == Get(EnsureEntry(t, skey, actions)[skey], a)
  {
  }

  /** Updates keep every entry free of duplicate actions. */
  lemma TdUpdateKeepsUnique(t: Table, actions: seq<string>, alpha: real, gamma: real,
                            skey: string, action: string, reward: real, next: Option<string>)
    requires |actions| > 0 && EntriesUnique(t)
    ensures EntriesUnique(TdUpdate(t, actions, alpha, gamma, skey, action, reward, next).0)
  {
    var t1 := EnsureEntry(t, skey, actions);
    var t2 := if next.Some? then EnsureEntry(t1, next.value, actions) else t1;
    assert EntriesUnique(t2);
    var r := TdUpdate(t, actions, alpha, gamma, skey, action, reward, next);
    if r.1 {
      var v :| r.0 == Assign(t2, skey, action, v);
      AssignKeepsUnique(t2, skey, action, v);
    }
  }

  /** Assigning one cell keeps every entry free of duplicate actions. */
  lemma AssignKeepsUnique(t: Table, skey: string, action: string, v: real)
    requires skey in t && EntriesUnique(t)
    ensures EntriesUnique(Assign(t, skey, action, v))
  {
    SetKeepsUnique(t[skey], action, v);
  }

  function Abs(x: real): real {
    if x < 0.0 then -x else x
  }

  /** For a learning rate in [0, 1] the new value lies between the old value and the target. */
  lemma StepBetween(current: real, target: real, alpha: real)
    requires 0.0 <= alpha <= 1.0
    ensures current <= target ==> current <= Step(current, target, alpha) <= target
    ensures target <= current ==> target <= Step(current, target, alpha) <= current
  {
    var d := target - current;
    assert Step(current, target, alpha) == current + alpha * d;
    if current <= target {
      assert 0.0 <= alpha * d && 0.0 <= (1.0 - alpha) * d;
    } else {
      assert 0.0 <= alpha * -d && 0.0 <= (1.0 - alpha) * -d;
    }
  }

  /** Each step shrinks the distance to the target by the factor `1 - alpha`. */
  lemma StepContracts(current: real, target: real, alpha: real)
    requires 0.0 <= alpha <= 1.0
    ensures Step(current, target, alpha) - target == (1.0 - alpha) * (current - target)
    ensures Abs(Step(current, target, alpha) - target) == (1.0 - alpha) * Abs(current - target)
  {
    var d := current - target;
    assert Step(current, target, alpha) - target == (1.0 - alpha) * d;
    if d < 0.0 {
      MulNonnegative(1.0 - alpha, -d);
      assert (1.0 - alpha) * d == -((1.0 - alpha) * -d);
    } else {
      MulNonnegative(1.0 - alpha, d);
    }
  }

  lemma MulNonnegative(a: real, b: real)
    requires 0.0 <= a && 0.0 <= b
    ensures 0.0 <= a * b
  {
  }

  /** `n` supervised updates with the same reward, starting from `v`. */
  function Repeat(v: real, target: real, alpha: real, n: nat): real {
    if n == 0 then v else Step(Repeat(v, target, alpha, n - 1), target, alpha)
  }

  function Pow(x: real, n: nat): real {
    if n == 0 then 1.0 else x * Pow(x, n - 1)
  }

  /** After `n` steps the distance to the target is `(1 - alpha)^n` times the initial one. */
  lemma {:induction false} RepeatClosedForm(v: real, target: real, alpha: real, n: nat)
    requires 0.0 <= alpha <= 1.0
    ensures Repeat(v, target, alpha, n) - target == Pow(1.0 - alpha, n) * (v - target)
  {
    if n > 0 {
      RepeatClosedForm(v, target, alpha, n - 1);
      StepContracts(Repeat(v, target, alpha, n - 1), target, alpha);
      assert (1.0 - alpha) * (Pow(1.0 - alpha, n - 1) * (v - target))
          == ((1.0 - alpha) * Pow(1.0 - alpha, n - 1)) * (v - target);
    }
  }

  /**
   * Repeated updates move monotonically toward the target and never overshoot:
   * rising from below it, falling from above it.
   */
  lemma {:induction false} RepeatMonotone(v: real, target: real, alpha: real, n: nat)
    requires 0.0 <= alpha <= 1.0
    ensures v <= target ==> v <= Repeat(v, target, alpha, n) <= Repeat(v, target, alpha, n + 1) <= target
    ensures target <= v ==> target <= Repeat(v, target, alpha, n + 1) <= Repeat(v, target, alpha, n) <= v
  {
    if n > 0 {
      RepeatMonotone(v, target, alpha, n - 1);
    }
    StepBetween(Repeat(v, target, alpha, n), target, alpha);
  }

  lemma {:induction false} PowAdd(x: real, m: nat, n: nat)
    ensures Pow(x, m + n) == Pow(x, m) * Pow(x, n)
  {
    if m > 0 {
      PowAdd(x, m - 1, n);
      assert Pow(x, m + n) == x * Pow(x, m - 1 + n);
      assert x * (Pow(x, m - 1) * Pow(x, n)) == (x * Pow(x, m - 1)) * Pow(x, n);
    }
  }

  lemma {:induction false} PowNonnegative(x: real, n: nat)
    requires 0.0 <= x
    ensures 0.0 <= Pow(x, n)
  {
    if n > 0 {
      PowNonnegative(x, n - 1);
    }
  }

  /** Starting from 0.0 with reward 1.0 and the default `alpha`, twenty updates reach at least 0.99. */
  lemma ConvergenceExample()
    ensures Repeat(0.0, 1.0, DefaultAlpha, 20) >= 0.99
  {
    var x := 0.7;
    PowAdd(x, 2, 2);
    PowAdd(x, 4, 4);
    PowAdd(x, 8, 8);
    PowAdd(x, 16, 4);
    PowNonnegative(x, 4);
    PowNonnegative(x, 16);
    assert Pow(x, 2) == 0.49;
    assert Pow(x, 4) <= 0.25;
    assert Pow(x, 8) <= 0.0625 by {
      assert Pow(x, 8) == Pow(x, 4) * Pow(x, 4);
    }
    assert Pow(x, 16) <= 0.00390625 by {
      assert Pow(x, 16) == Pow(x, 8) * Pow(x, 8);
    }
    assert Pow(x, 20) <= 0.01 by {
      assert Pow(x, 20) == Pow(x, 16) * Pow(x, 4);
      assert Pow(x, 16) * Pow(x, 4) <= 0.00390625 * 0.25;
    }
    RepeatClosedForm(0.0, 1.0, 0.3, 20);
  }

  /** A positive reward lifts a never-updated 0.0 strictly above 0.0 after one update. */
  lemma {:induction false} RepeatPositive(target: real, alpha: real, n: nat)
    requires 0.0 < alpha <= 1.0 && 0.0 < target && n > 0
    ensures 0.0 < Repeat(0.0, target, alpha, n)
  {
    if n > 1 {
      RepeatPositive(target, alpha, n - 1);
      StepBetween(Repeat(0.0, target, alpha, n - 1), target, alpha);
    } else {
      assert Repeat(0.0, target, alpha, 1) == alpha * target;
    }
  }

  /** `update` without a next state: the target is the reward itself. */
  function Supervise(t: Table, actions: seq<string>, alpha: real,
                     skey: string, action: string, reward: real): Table
  {
    var t1 := EnsureEntry(t, skey, actions);
    Assign(t1, skey, action, Step(ValueOf(t1, skey, action), reward, alpha))
  }

  /** `f` applied `n` times to `t`. */
  function Iterate(f: Table -> Table, t: Table, n: nat): Table
    decreases n
  {
    if n == 0 then t else Iterate(f, f(t), n - 1)
  }

  /** The table after `n` supervised updates of the same state, action and reward. */
  function Train(t: Table, actions: seq<string>, alpha: real,
                 skey: string, action: string, reward: real, n: nat): Table
  {
    Iterate(u => Supervise(u, actions, alpha, skey, action, reward), t, n)
  }

  /** `n - 1` steps from one step past `v` are `n` steps from `v`. */
  lemma RepeatAfterStep(w: real, v: real, target: real, alpha: real, n: nat)
    requires n > 0 && w == Step(v, target, alpha)
    ensures Repeat(w, target, alpha, n - 1) == Repeat(v, target, alpha, n)
  {
    RepeatShift(v, target, alpha, n - 1);
  }

  /** Taking the first step separately gives the same sequence of values. */
  lemma {:induction false} RepeatShift(v: real, target: real, alpha: real, n: nat)
    ensures Repeat(Step(v, target, alpha), target, alpha, n) == Repeat(v, target, alpha, n + 1)
  {
    if n > 0 {
      RepeatShift(v, target, alpha, n - 1);
    }
  }

  /** One supervised update moves the trained action by one `Step`. */
  lemma SupervisedStep(t: Table, actions: seq<string>, alpha: real,
                       skey: string, action: string, reward: real)
    ensures ValueOf(Supervise(t, actions, alpha, skey, action, reward), skey, action)
              == Step(ValueOf(t, skey, action), reward, alpha)
  {
    ValueOfEnsured(t, skey, actions, action);
  }

  /** One supervised update keeps every other action of the state. */
  lemma SupervisedStepOthers(t: Table, actions: seq<string>, alpha: real,
                             skey: string, action: string, reward: real, a: string)
    requires a != action
    ensures skey in Supervise(t, actions, alpha, skey, action, reward)
    ensures ValueOf(Supervise(t, actions, alpha, skey, action, reward), skey, a)
              == ValueOf(EnsureEntry(t, skey, actions), skey, a)
  {
  }

  /** A table update that moves one action by one `Step` moves it along `Repeat` when iterated. */
  lemma {:induction false} IterateFollowsRepeat(f: Table -> Table, t: Table, n: nat,
                                                skey: string, action: string, target: real, alpha: real)
    requires forall u :: ValueOf(f(u), skey, action) == Step(ValueOf(u, skey, action), target, alpha)
    ensures ValueOf(Iterate(f, t, n), skey, action) == Repeat(ValueOf(t, skey, action), target, alpha, n)
    decreases n
  {
    if n > 0 {
      var u := f(t);
      IterateFollowsRepeat(f, u, n - 1, skey, action, target, alpha);
      assert Iterate(f, t, n) == Iterate(f, u, n - 1);
      RepeatAfterStep(ValueOf(u, skey, action), ValueOf(t, skey, action), target, alpha, n);
    }
  }

  /** A table update that keeps the state's entry and one of its values keeps it when iterated. */
  lemma {:induction false} IterateKeepsOthers(f: Table -> Table, t: Table, n: nat, skey: string, a: string)
    requires forall u :: skey in f(u)
    requires forall u :: skey in u ==> ValueOf(f(u), skey, a) == ValueOf(u, skey, a)
    ensures n > 0 ==> ValueOf(Iterate(f, t, n), skey, a) == ValueOf(f(t), skey, a)
    decreases n
  {
    if n > 1 {
      IterateKeepsOthers(f, f(t), n - 1, skey, a);
    }
  }

  /** Repeated supervised updates follow `Repeat` on the trained action. */
  lemma TrainFollowsRepeat(t: Table, actions: seq<string>, alpha: real,
                           skey: string, action: string, reward: real, n: nat)
    ensures ValueOf(Train(t, actions, alpha, skey, action, reward, n), skey, action)
              == Repeat(ValueOf(t, skey, action), reward, alpha, n)
  {
    var f := u => Supervise(u, actions, alpha, skey, action, reward);
    forall u ensures ValueOf(f(u), skey, action) == Step(ValueOf(u, skey, action), reward, alpha) {
      SupervisedStep(u, actions, alpha, skey, action, reward);
    }
    IterateFollowsRepeat(f, t, n, skey, action, reward, alpha);
  }

  /** Repeated supervised updates leave every other action where lazy creation put it. */
  lemma TrainKeepsOthers(t: Table, actions: seq<string>, alpha: real,
                         skey: string, action: string, reward: real, n: nat, a: string)
    requires a != action && n > 0
    ensures ValueOf(Train(t, actions, alpha, skey, action, reward, n), skey, a)
              == ValueOf(EnsureEntry(t, skey, actions), skey, a)
  {
    var f := u => Supervise(u, actions, alpha, skey, action, reward);
    forall u ensures skey in f(u) && (skey in u ==> ValueOf(f(u), skey, a) == ValueOf(u, skey, a)) {
      SupervisedStepOthers(u, actions, alpha, skey, action, reward, a);
    }
    SupervisedStepOthers(t, actions, alpha, skey, action, reward, a);
    IterateKeepsOthers(f, t, n, skey, a);
  }

  /** Every value in the table lies in [-bound, bound]. */
  predicate Bounded(t: Table, bound: real) {
    forall k, x :: k in t && x in t[k] ==> -bound <= x.1 <= bound
  }

  /**
   * Values stay within a bound the targets respect: the reward alone without a
   * next state, the reward plus `gamma` times the bound with one.
   */
  lemma TdUpdateKeepsBound(t: Table, actions: seq<string>, alpha: real, gamma: real,
                           skey: string, action: string, reward: real, next: Option<string>, bound: real)
    requires |actions| > 0 && Bounded(t, bound) && 0.0 <= bound
    requires 0.0 <= alpha <= 1.0 && 0.0 <= gamma
    requires next.None? ==> -bound <= reward <= bound
    requires next.Some? ==> -bound + gamma * bound <= reward <= bound - gamma * bound
    ensures Bounded(TdUpdate(t, actions, alpha, gamma, skey, action, reward, next).0, bound)
  {
    var t1 := EnsureEntry(t, skey, actions);
    EnsureKeepsBound(t, skey, actions, bound);
    var t2 := if next.Some? then EnsureEntry(t1, next.value, actions) else t1;
    if next.Some? {
      EnsureKeepsBound(t1, next.value, actions, bound);
    }
    var r := TdUpdate(t, actions, alpha, gamma, skey, action, reward, next);
    if r.1 {
      var current := ValueOf(t1, skey, action);
      ValueOfBounded(t1, skey, action, bound);
      var target := if next.None? then reward else Bootstrap(t2[next.value], reward, gamma);
      if next.Some? {
        BootstrapBounded(t2[next.value], reward, gamma, bound);
      }
      var v := Step(current, target, alpha);
      StepBetween(current, target, alpha);
      assert r.0 == Assign(t2, skey, action, v);
      AssignKeepsBound(t2, skey, action, v, bound);
    }
  }

  /**
   * With the default learning rate and discount, rewards in [-1, 1] keep every
   * value of the table within [-10, 10].
   */
  lemma DefaultsKeepValuesBounded(t: Table, skey: string, action: string, reward: real, next: Option<string>)
    requires Bounded(t, 10.0) && -1.0 <= reward <= 1.0
    ensures Bounded(TdUpdate(t, DefaultActions, DefaultAlpha, DefaultGamma, skey, action, reward, next).0, 10.0)
  {
    TdUpdateKeepsBound(t, DefaultActions, DefaultAlpha, DefaultGamma, skey, action, reward, next, 10.0);
  }

  lemma ValueOfBounded(t: Table, skey: string, action: string, bound: real)
    requires Bounded(t, bound) && 0.0 <= bound
    ensures -bound <= ValueOf(t, skey, action) <= bound
  {
    if skey in t {
      var g := Get(t[skey], action);
      if g.Some? {
        assert (action, g.value) in t[skey];
      }
    }
  }

  lemma BootstrapBounded(n: Entry, reward: real, gamma: real, bound: real)
    requires n != [] && 0.0 <= gamma
    requires forall x :: x in n ==> -bound <= x.1 <= bound
    requires -bound + gamma * bound <= reward <= bound - gamma * bound
    ensures -bound <= Bootstrap(n, reward, gamma) <= bound
  {
    var target := Bootstrap(n, reward, gamma);
    var x :| x in n && target == reward + gamma * x.1 && forall y :: y in n ==> y.1 <= x.1;
    MulNonnegative(gamma, bound - x.1);
    MulNonnegative(gamma, x.1 + bound);
  }

  lemma AssignKeepsBound(t: Table, skey: string, action: string, v: real, bound: real)
    requires skey in t && Bounded(t, bound) && -bound <= v <= bound
    ensures Bounded(Assign(t, skey, action, v), bound)
  {
    SetPairs(t[skey], action, v);
  }

  /** Lazily created entries hold 0.0 only, inside any non-negative bound. */
  lemma EnsureKeepsBound(t: Table, skey: string, actions: seq<string>, bound: real)
    requires Bounded(t, bound) && 0.0 <= bound
    ensures Bounded(EnsureEntry(t, skey, actions), bound)
  {
    var e := FreshEntry(actions);
    forall x | x in e ensures x.1 == 0.0 {
      var j :| 0 <= j < |e| && e[j] == x;
    }
  }

  /**
   * The worked example: with `company_only` at 0.9, the others at 0.0,
   * exploitation returns `company_only`; the feedback "down" with the default
   * `alpha` = 0.3 then brings its value to 0.9 + 0.3 * (-1.0 - 0.9) = 0.33.
   */
  lemma WorkedExample(skey: string)
    ensures var e := [("broad", 0.0), ("legal_only", 0.0), ("financial_only", 0.0), ("company_only", 0.9)];
            var t := map[skey := e];
            Greedy(e) == Some(("company_only", 0.9)) &&
            ValueOf(TdUpdate(t, DefaultActions, DefaultAlpha, DefaultGamma, skey, "company_only",
                             Reward.FeedbackReward(Some("down")), None).0, skey, "company_only") == 0.33
  {
    var e := [("broad", 0.0), ("legal_only", 0.0), ("financial_only", 0.0), ("company_only", 0.9)];
    var t := map[skey := e];
    BestIndexUnique(e, 3);
    assert Text.Lower("down") == "down";
    assert Reward.FeedbackReward(Some("down")) == -1.0;
    TdUpdateSupervised(t, DefaultActions, DefaultAlpha, DefaultGamma, skey, "company_only", -1.0);
    assert Get(e, "company_only") == Some(0.9);
  }

  /** What `json.load` found: no file, an unparsable file, or the stored table as written. */
  datatype Persisted = Missing | Unreadable | Stored(raw: seq<(string, seq<(string, real)>)>)

  /** `_load`: the stored table read as `json.load` would (the last duplicate wins), or empty. */
  function Load(p: Persisted): (t: Table)
    ensures !p.Stored? ==> t == map[]
    ensures p.Stored? ==> forall k :: k in t <==> LastValue(p.raw, k).Some?
    ensures p.Stored? ==> forall k :: k in t ==> t[k] == FromPairs(LastValue(p.raw, k).value)
    ensures EntriesUnique(t)
  {
    match p
    case Stored(raw) =>
      var top := AsMap(FromPairs(raw));
      assert forall k :: Get(FromPairs(raw), k) == LastValue(raw, k) by {
        forall k ensures Get(FromPairs(raw), k) == LastValue(raw, k) {
          FromPairsGet(raw, k);
        }
      }
      map k | k in top :: FromPairs(top[k])
    case _ => map[]
  }

  class RLAgent {
    const actions: seq<string>
    const epsilon: real
    const alpha: real
    const gamma: real
    /** `self._q` */
    var q: Table

    ghost predicate Valid()
      reads this
    {
      |actions| > 0 && EntriesUnique(q)
    }

    /** `RLAgent(actions, epsilon, alpha, gamma, q_path)`, with the file's content as `stored`. */
    constructor(actions: Option<seq<string>>, epsilon: real, alpha: real, gamma: real, stored: Persisted)
      ensures Valid()
      ensures this.actions == ChooseActions(actions)
      ensures this.epsilon == epsilon && this.alpha == alpha && this.gamma == gamma
      ensures q == Load(stored)
    {
      this.actions := ChooseActions(actions);
      this.epsilon := epsilon;
      this.alpha := alpha;
      this.gamma := gamma;
      q := Load(stored);
    }

    /** `_ensure_state` */
    method EnsureState(skey: string)
      requires Valid()
      modifies this
      ensures Valid()
      ensures q == EnsureEntry(old(q), skey, actions)
    {
      if skey !in q {
        q := q[skey := FreshEntry(actions)];
      }
    }

    /**
     * `select`: explores with `actions[pick]` when `draw < epsilon`, otherwise
     * exploits the first maximal action of the state's entry. `None` stands for
     * the error `max` raises on an empty entry.
     */
    method Select(state: State.Dict, draw: real, pick: nat) returns (action: Option<string>)
      requires Valid()
      requires 0.0 <= draw < 1.0 && pick < |actions|
      modifies this
      ensures Valid()
      ensures q == EnsureEntry(old(q), State.StateKey(state), actions)
      ensures draw < epsilon ==> action == Some(actions[pick])
      ensures epsilon <= draw ==>
                var e := q[State.StateKey(state)];
                (action.None? <==> e == []) &&
                (action.Some? ==> action.value == e[BestIndex(e)].0)
    {
      var skey := State.StateKey(state);
      EnsureState(skey);
      if draw < epsilon {
        action := Some(actions[pick]);
      } else {
        var best := Greedy(q[skey]);
        if best.None? {
          action := None;
        } else {
          action := Some(best.value.0);
        }
      }
    }

    /** `update`: one TD(0) step, or a supervised step when no next state is given. */
    method Update(state: State.Dict, action: string, reward: real, nextState: Option<State.Dict>)
      returns (ok: bool)
      requires Valid()
      modifies this
      ensures Valid()
      ensures (q, ok) == TdUpdate(old(q), actions, alpha, gamma, State.StateKey(state), action, reward,
                                  if nextState.None? then None else Some(State.StateKey(nextState.value)))
    {
      var skey := State.StateKey(state);
      EnsureState(skey);
      var current := Get(q[skey], action).GetOr(0.0);
      var target := reward;
      if nextState.Some? {
        var nskey := State.StateKey(nextState.value);
        EnsureState(nskey);
        if q[nskey] == [] {
          return false;
        }
        target := Bootstrap(q[nskey], reward, gamma);
      }
      AssignKeepsUnique(q, skey, action, Step(current, target, alpha));
      q := Assign(q, skey, action, Step(current, target, alpha));
      ok := true;
    }
  }
}
