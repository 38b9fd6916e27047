/**
 * The state encoder: turns a prompt and an optional company profile into a
 * small dictionary (topic, length bucket, sector, size, month) and that
 * dictionary into the string key of the value table.
 *
 * The topic rules are regular expressions of three shapes: an alternation of
 * literal words, a word followed by optional whitespace and one of a few
 * endings (`net\s*zero`, `scope\s*[123]`), and the catch-all `.*`. They are
 * written here as data, with `Matches` giving the meaning `re.search` has for
 * them and `Search` the executable test.
 */
module State {
  import opened Wrappers
  import opened Text
  import opened OrderedDict
  import Json

  /** A Python dict from strings to strings, in insertion order. */
  type Dict = seq<(string, string)>

  /** A value of the company profile: a string, or anything else (`None`, a number, ...). */
  datatype Value = Str(s: string) | NonString

  /** The company profile, a dict from strings to arbitrary values. */
  type Profile = seq<(string, Value)>

  /** One branch of a `|`-alternation. */
  datatype Alternative =
    | Word(w: string)                          // the literal text `w`
    | Spaced(head: string, tails: seq<string>) // `head\s*` followed by one of `tails`
    | AnyText                                  // `.*`

  /** A regular expression `alt1|alt2|...`. */
  type Pattern = seq<Alternative>

  /** A topic bucket: its name and its list of patterns. */
  datatype Rule = Rule(name: string, patterns: seq<Pattern>)

  const LegalPattern: Pattern :=
    [Word("law"), Word("legal"), Word("sue"), Word("regulat"), Word("policy"), Word("compliance"), Word("malpractice")]
  const FinPattern: Pattern :=
    [Word("budget"), Word("cost"), Word("price"), Word("fund"), Word("profit"), Word("finance"), Word("investment")]
  const GhgPattern: Pattern :=
    [Word("ghg"), Word("emission"), Word("carbon"), Word("co2"), Word("footprint"), Word("offset"),
     Spaced("net", ["zero"]), Spaced("scope", ["1", "2", "3"])]
  const OtherPattern: Pattern := [AnyText]

  /** `TOPIC_BUCKETS`, in the dictionary's order. */
  const TopicBuckets: seq<Rule> :=
    [Rule("legal", [LegalPattern]), Rule("fin", [FinPattern]), Rule("ghg", [GhgPattern]), Rule("other", [OtherPattern])]

  const TopicNames: set<string> := {"legal", "fin", "ghg", "other"}

  predicate AllSpace(s: string) {
    forall i :: 0 <= i < |s| ==> IsSpace(s[i])
  }

  // ---------- what `re.search` means for these patterns ----------

  /** The alternative matches some text that starts at position `i`. */
  ghost predicate MatchesAt(a: Alternative, text: string, i: nat) {
    match a
    case Word(w) => PrefixAt(w, text, i)
    case Spaced(h, tails) =>
      PrefixAt(h, text, i) &&
      exists j, t :: i + |h| <= j <= |text| && AllSpace(text[i + |h|..j]) && t in tails && PrefixAt(t, text, j)
    case AnyText => i <= |text|
  }

  /** `re.search(p, text)` finds a match. */
  ghost predicate Matches(p: Pattern, text: string) {
    exists i: nat, a :: i <= |text| && a in p && MatchesAt(a, text, i)
  }

  // ---------- the executable test ----------

  /** The first position at or after `j` that does not hold whitespace: a greedy `\s*`. */
  function SkipSpaces(text: string, j: nat): (k: nat)
    requires j <= |text|
    ensures j <= k <= |text|
    ensures AllSpace(text[j..k])
    ensures k < |text| ==> !IsSpace(text[k])
    decreases |text| - j
  {
    if j < |text| && IsSpace(text[j]) then SkipSpaces(text, j + 1) else j
  }

  function AltAt(a: Alternative, text: string, i: nat): bool
    requires i <= |text|
  {
    match a
    case Word(w) => PrefixAt(w, text, i)
    case Spaced(h, tails) =>
      PrefixAt(h, text, i) && exists t :: t in tails && PrefixAt(t, text, SkipSpaces(text, i + |h|))
    case AnyText => true
  }

  function Search(p: Pattern, text: string): bool {
    exists i: nat, a :: i <= |text| && a in p && AltAt(a, text, i)
  }

  /** Every ending after `\s*` starts with a character that is not whitespace. */
  predicate WellFormed(p: Pattern) {
    forall k :: 0 <= k < |p| && p[k].Spaced? ==> TailsSolid(p[k].tails)
  }

  predicate TailsSolid(tails: seq<string>) {
    forall m :: 0 <= m < |tails| ==> |tails[m]| > 0 && !IsSpace(tails[m][0])
  }

  /**
   * A greedy `\s*` loses no match, because no ending starts with whitespace:
   * the executable test agrees with the regular-expression meaning.
   */
  lemma AltAtCorrect(a: Alternative, text: string, i: nat)
    requires i <= |text|
    requires a.Spaced? ==> TailsSolid(a.tails)
    ensures AltAt(a, text, i) <==> MatchesAt(a, text, i)
  {
    if a.Spaced? && PrefixAt(a.head, text, i) {
      var start := i + |a.head|;
      var k := SkipSpaces(text, start);
      if AltAt(a, text, i) {
        var t :| t in a.tails && PrefixAt(t, text, k);
        assert start <= k <= |text| && AllSpace(text[start..k]);
      }
      if MatchesAt(a, text, i) {
        var j, t :| start <= j <= |text| && AllSpace(text[start..j]) && t in a.tails && PrefixAt(t, text, j);
        assert text[j] == t[0];
        assert j == k;
      }
    }
  }

  lemma SearchCorrect(p: Pattern, text: string)
    requires WellFormed(p)
    ensures Search(p, text) <==> Matches(p, text)
  {
    if Search(p, text) {
      var i: nat, a :| i <= |text| && a in p && AltAt(a, text, i);
      AltAtCorrect(a, text, i);
    }
    if Matches(p, text) {
      var i: nat, a :| i <= |text| && a in p && MatchesAt(a, text, i);
      AltAtCorrect(a, text, i);
    }
  }

  // ---------- `_bucket` ----------

  predicate RuleFires(r: Rule, text: string) {
    exists p :: p in r.patterns && Search(p, text)
  }

  /** The name of the first rule that fires on `text`, or "other" when none does. */
  function FirstMatch(rules: seq<Rule>, text: string): (name: string)
    ensures (exists k :: 0 <= k < |rules| && name == rules[k].name && RuleFires(rules[k], text)
               && forall j :: 0 <= j < k ==> !RuleFires(rules[j], text))
         || (name == "other" && forall j :: 0 <= j < |rules| ==> !RuleFires(rules[j], text))
  {
    if rules == [] then "other"
    else if RuleFires(rules[0], text) then rules[0].name
    else
      var name := FirstMatch(rules[1..], text);
      assert forall j :: 1 <= j < |rules| ==> rules[j] == rules[1..][j - 1];
      name
  }

  /** `_bucket(text, buckets)`: the text is lower-cased before any pattern is tried. */
  function BucketOf(text: string, rules: seq<Rule>): (name: string)
    ensures name == "other" || exists k :: 0 <= k < |rules| && name == rules[k].name
  {
    FirstMatch(rules, Lower(text))
  }

  /** `_bucket(prompt, TOPIC_BUCKETS)`: always one of the four bucket names. */
  function Topic(prompt: string): (name: string)
    ensures name in TopicNames
  {
    BucketOf(prompt, TopicBuckets)
  }

  /** `.*` matches every text, so the catch-all rule always fires. */
  lemma OtherAlwaysFires(text: string)
    ensures RuleFires(TopicBuckets[3], text)
  {
    assert AnyText in OtherPattern && AltAt(AnyText, text, 0);
    assert OtherPattern in TopicBuckets[3].patterns;
  }

  lemma SinglePatternRule(r: Rule, text: string)
    requires |r.patterns| == 1
    ensures RuleFires(r, text) == Search(r.patterns[0], text)
  {
    if Search(r.patterns[0], text) {
      assert r.patterns[0] in r.patterns;
    }
  }

  /**
   * The topic is the first of legal, fin, ghg whose expression `re.search`
   * finds in the lower-cased prompt, and "other" when none does.
   */
  lemma TopicRule(prompt: string)
    ensures var text := Lower(prompt);
      Topic(prompt) ==
        if Matches(LegalPattern, text) then "legal"
        else if Matches(FinPattern, text) then "fin"
        else if Matches(GhgPattern, text) then "ghg"
        else "other"
    ensures Topic(prompt) in TopicNames
  {
    var text := Lower(prompt);
    var rules := TopicBuckets;
    SearchCorrect(LegalPattern, text);
    SearchCorrect(FinPattern, text);
    SearchCorrect(GhgPattern, text);
    SinglePatternRule(rules[0], text);
    SinglePatternRule(rules[1], text);
    SinglePatternRule(rules[2], text);
    OtherAlwaysFires(text);
    assert FirstMatch(rules[3..], text) == "other";
    assert rules[2..][1..] == rules[3..];
    assert rules[1..][1..] == rules[2..];
  }

  /** A legal keyword anywhere in the prompt, in any case, makes the topic "legal", whatever else it mentions. */
  lemma LegalKeywordWins(prompt: string, w: string, i: nat)
    requires Word(w) in LegalPattern
    requires PrefixAt(w, Lower(prompt), i)
    ensures Topic(prompt) == "legal"
  {
    assert MatchesAt(Word(w), Lower(prompt), i);
    TopicRule(prompt);
  }

  /** The letter triples that occur in `text`, at least. */
  predicate TriplesWithin(text: string, triples: set<(char, char, char)>) {
    forall i :: 0 <= i < |text| - 2 ==> (text[i], text[i + 1], text[i + 2]) in triples
  }

  /** A word that starts with a letter triple the text lacks occurs nowhere in it. */
  lemma WordAbsent(w: string, text: string, triples: set<(char, char, char)>)
    requires |w| >= 3 && TriplesWithin(text, triples) && (w[0], w[1], w[2]) !in triples
    ensures forall i: nat :: !PrefixAt(w, text, i)
  {
    forall i: nat ensures !PrefixAt(w, text, i) {
      if i + |w| <= |text| {
        var u := text[i..i + |w|];
        assert u[0] == text[i] && u[1] == text[i + 1] && u[2] == text[i + 2];
      }
    }
  }

  /** An alternation of words none of which occurs in the text does not match it. */
  lemma NoWordMatches(p: Pattern, text: string)
    requires forall k :: 0 <= k < |p| ==> p[k].Word? && forall i: nat :: !PrefixAt(p[k].w, text, i)
    ensures !Matches(p, text)
  {
    forall i: nat, a | i <= |text| && a in p ensures !MatchesAt(a, text, i) {
      var k :| 0 <= k < |p| && p[k] == a;
    }
  }

  /** The worked example's prompt, and the same prompt lower-cased. */
  const ExamplePrompt: string := "What is our scope 3 emissions deadline?"
  const ExampleText: string := "what is our scope 3 emissions deadline?"

  /** Every letter triple of the worked example's lower-cased prompt. */
  const ExampleTriples: set<(char, char, char)> := {
    (' ', '3', ' '), (' ', 'd', 'e'), (' ', 'e', 'm'), (' ', 'i', 's'), (' ', 'o', 'u'),
    (' ', 's', 'c'), ('3', ' ', 'e'), ('a', 'd', 'l'), ('a', 't', ' '), ('c', 'o', 'p'),
    ('d', 'e', 'a'), ('d', 'l', 'i'), ('e', ' ', '3'), ('e', 'a', 'd'), ('e', 'm', 'i'),
    ('h', 'a', 't'), ('i', 'n', 'e'), ('i', 'o', 'n'), ('i', 's', ' '), ('i', 's', 's'),
    ('l', 'i', 'n'), ('m', 'i', 's'), ('n', 'e', '?'), ('n', 's', ' '), ('o', 'n', 's'),
    ('o', 'p', 'e'), ('o', 'u', 'r'), ('p', 'e', ' '), ('r', ' ', 's'), ('s', ' ', 'd'),
    ('s', ' ', 'o'), ('s', 'c', 'o'), ('s', 'i', 'o'), ('s', 's', 'i'), ('t', ' ', 'i'),
    ('u', 'r', ' '), ('w', 'h', 'a')
  }

  lemma ExampleTriplesComplete()
    ensures TriplesWithin(ExampleText, ExampleTriples)
  {
  }

  /** The worked example's prompt mentions no legal keyword. */
  lemma ExampleNotLegal()
    ensures !Matches(LegalPattern, ExampleText)
  {
    var q, ts := ExampleText, ExampleTriples;
    ExampleTriplesComplete();
    WordAbsent("law", q, ts);
    WordAbsent("legal", q, ts);
    WordAbsent("sue", q, ts);
    WordAbsent("regulat", q, ts);
    WordAbsent("policy", q, ts);
    WordAbsent("compliance", q, ts);
    WordAbsent("malpractice", q, ts);
    NoWordMatches(LegalPattern, q);
  }

  /** The worked example's prompt mentions no finance keyword. */
  lemma ExampleNotFinance()
    ensures !Matches(FinPattern, ExampleText)
  {
    var q, ts := ExampleText, ExampleTriples;
    ExampleTriplesComplete();
    WordAbsent("budget", q, ts);
    WordAbsent("cost", q, ts);
    WordAbsent("price", q, ts);
    WordAbsent("fund", q, ts);
    WordAbsent("profit", q, ts);
    WordAbsent("finance", q, ts);
    WordAbsent("investment", q, ts);
    NoWordMatches(FinPattern, q);
  }

  /** The worked example's prompt mentions emissions. */
  lemma ExampleGhg()
    ensures Matches(GhgPattern, ExampleText)
  {
    assert forall k :: 0 <= k < 8 ==> ExampleText[20 + k] == "emission"[k];
    assert ExampleText[20..28] == "emission";
    assert MatchesAt(Word("emission"), ExampleText, 20);
  }

  lemma ExampleLowerFront()
    ensures forall i :: 0 <= i < 20 ==> Lower(ExamplePrompt)[i] == ExampleText[i]
  {
  }

  lemma ExampleLowerBack()
    ensures forall i :: 20 <= i < |ExampleText| ==> Lower(ExamplePrompt)[i] == ExampleText[i]
  {
  }

  lemma ExampleLower()
    ensures Lower(ExamplePrompt) == ExampleText
  {
    ExampleLowerFront();
    ExampleLowerBack();
  }

  /** The worked example's prompt falls in the "ghg" bucket. */
  lemma ExampleTopic()
    ensures Topic(ExamplePrompt) == "ghg"
  {
    ExampleLower();
    ExampleNotLegal();
    ExampleNotFinance();
    ExampleGhg();
    TopicRule(ExamplePrompt);
  }

  /** The worked example's company profile. */
  const ExampleProfileDict: Profile := [("sector", Str("energy")), ("size", Str("large"))]

  /** The worked example's profile fields, already lower-case, pass through. */
  lemma ExampleProfile()
    ensures ProfileField(Some(ExampleProfileDict), "sector") == Some("energy")
    ensures ProfileField(Some(ExampleProfileDict), "size") == Some("large")
  {
    assert Lower("energy") == "energy";
    assert Lower("large") == "large";
  }

  lemma WorkedExampleEncoding(month: string)
    ensures var s := EncodeState(ExamplePrompt, Some(ExampleProfileDict), month);
            s.Some? && Get(s.value, "topic") == Some("ghg") && Get(s.value, "len") == Some("short") &&
            Get(s.value, "sector") == Some("energy") && Get(s.value, "size") == Some("large")
  {
    ExampleTopic();
    ExampleProfile();
  }

  /** Classification ignores case. */
  lemma TopicIgnoresCase(prompt: string)
    ensures Topic(Lower(prompt)) == Topic(prompt)
  {
    LowerIdempotent(prompt);
  }

  // ---------- `encode_state` and `state_key` ----------

  /** The length bucket of a prompt of `n` characters. */
  function LengthBucket(n: nat): (b: string)
    ensures b in {"short", "medium", "long"}
  {
    if n < 80 then "short" else if n < 200 then "medium" else "long"
  }

  /** The three length bands, by character count, cover every length and do not overlap. */
  lemma LengthBands(n: nat)
    ensures LengthBucket(n) == "short" <==> n < 80
    ensures LengthBucket(n) == "medium" <==> 80 <= n < 200
    ensures LengthBucket(n) == "long" <==> 200 <= n
  {
  }

  /**
   * `(company_info or {}).get(field, "unknown").lower()`: `None` where the
   * field holds a value that is not a string, on which `.lower()` raises
   * `AttributeError`.
   */
  function ProfileField(companyInfo: Option<Profile>, field: string): (r: Option<string>)
    ensures r.Some? ==> forall i :: 0 <= i < |r.value| ==> !('A' <= r.value[i] <= 'Z')
  {
    match Get(companyInfo.GetOr([]), field).GetOr(Str("unknown"))
    case Str(v) => Some(Lower(v))
    case NonString => None
  }

  /** The state record with its five fields in `encode_state`'s order. */
  function Record(topic: string, len: string, sector: string, size: string, month: string): Dict {
    [("topic", topic), ("len", len), ("sector", sector), ("size", size), ("month", month)]
  }

  lemma RecordKeys(topic: string, len: string, sector: string, size: string, month: string)
    ensures var s := Record(topic, len, sector, size, month);
      Keys(s) == ["topic", "len", "sector", "size", "month"] && UniqueKeys(s)
  {
    var ks := Keys(Record(topic, len, sector, size, month));
    assert ks == ["topic", "len", "sector", "size", "month"];
  }

  lemma RecordFields(topic: string, len: string, sector: string, size: string, month: string)
    ensures var s := Record(topic, len, sector, size, month);
      Keys(s) == ["topic", "len", "sector", "size", "month"] && UniqueKeys(s) &&
      Get(s, "topic") == Some(topic) && Get(s, "len") == Some(len) && Get(s, "sector") == Some(sector) &&
      Get(s, "size") == Some(size) && Get(s, "month") == Some(month)
  {
    var s := Record(topic, len, sector, size, month);
    RecordKeys(topic, len, sector, size, month);
    GetUnique(s, 0);
    GetUnique(s, 1);
    GetUnique(s, 2);
    GetUnique(s, 3);
    GetUnique(s, 4);
  }

  /**
   * `encode_state(prompt, company_info)` with the month (`"%Y-%m"` of the
   * clock) passed in; `None` where reading the sector or the size raises.
   */
  function EncodeState(prompt: string, companyInfo: Option<Profile>, month: string): (r: Option<Dict>)
    ensures r.None? <==> ProfileField(companyInfo, "sector").None? || ProfileField(companyInfo, "size").None?
    ensures r.Some? ==> Keys(r.value) == ["topic", "len", "sector", "size", "month"]
    ensures r.Some? ==> UniqueKeys(r.value)
    ensures r.Some? ==> Get(r.value, "topic") == Some(Topic(prompt))
    ensures r.Some? ==> Get(r.value, "len") == Some(LengthBucket(|prompt|))
    ensures r.Some? ==> Get(r.value, "sector") == ProfileField(companyInfo, "sector")
    ensures r.Some? ==> Get(r.value, "size") == ProfileField(companyInfo, "size")
    ensures r.Some? ==> Get(r.value, "month") == Some(month)
  {
    var sector, size := ProfileField(companyInfo, "sector"), ProfileField(companyInfo, "size");
    if sector.None? || size.None? then None
    else
      var topic, len := Topic(prompt), LengthBucket(|prompt|);
      RecordFields(topic, len, sector.value, size.value, month);
      Some(Record(topic, len, sector.value, size.value, month))
  }

  /**
   * `sector` and `size` are the profile's values lower-cased, "unknown" when
   * there is no profile or it lacks the field, and an error when the field
   * holds something other than a string.
   */
  lemma ProfileFieldDefaults(companyInfo: Option<Profile>, field: string)
    ensures companyInfo.None? || field !in Keys(companyInfo.value) ==> ProfileField(companyInfo, field) == Some("unknown")
    ensures companyInfo.Some? && Get(companyInfo.value, field).Some? && Get(companyInfo.value, field).value.Str? ==>
              ProfileField(companyInfo, field) == Some(Lower(Get(companyInfo.value, field).value.s))
    ensures companyInfo.Some? && Get(companyInfo.value, field) == Some(NonString) ==>
              ProfileField(companyInfo, field).None?
  {
    assert Lower("unknown") == "unknown";
  }

  /** `state_key(state)`: `json.dumps(state, sort_keys=True)`, a braced object in printable ASCII. */
  function StateKey(state: Dict): (k: string)
    ensures |k| >= 2 && k[0] == '{' && k[|k| - 1] == '}'
    ensures forall i :: 0 <= i < |k| ==> Json.Printable(k[i])
  {
    Json.DumpsSorted(state)
  }

  /** The five field values of an encoded state, in the encoder's order. */
  function Fields(s: Dict): seq<Option<string>> {
    [Get(s, "topic"), Get(s, "len"), Get(s, "sector"), Get(s, "size"), Get(s, "month")]
  }

  /** Equal keys mean equal field values. */
  lemma EncodedKeyDetermines(s1: Dict, s2: Dict)
    requires Keys(s1) == ["topic", "len", "sector", "size", "month"] && UniqueKeys(s1)
    requires Keys(s2) == ["topic", "len", "sector", "size", "month"] && UniqueKeys(s2)
    requires StateKey(s1) == StateKey(s2)
    ensures Fields(s1) == Fields(s2)
  {
    Json.DumpsSortedInjective(s1, s2);
    var m := AsMap(s1);
    assert m == AsMap(s2);
    assert "topic" in Keys(s1) && "len" in Keys(s1) && "sector" in Keys(s1);
    assert "size" in Keys(s1) && "month" in Keys(s1);
    assert Get(s1, "topic") == Some(m["topic"]) == Get(s2, "topic");
    assert Get(s1, "len") == Some(m["len"]) == Get(s2, "len");
    assert Get(s1, "sector") == Some(m["sector"]) == Get(s2, "sector");
    assert Get(s1, "size") == Some(m["size"]) == Get(s2, "size");
    assert Get(s1, "month") == Some(m["month"]) == Get(s2, "month");
  }

  /**
   * Two encoded states get the same key exactly when they agree on all five
   * fields: the key loses nothing and confuses nothing.
   */
  lemma EncodedKeyInjective(p1: string, c1: Option<Profile>, m1: string, p2: string, c2: Option<Profile>, m2: string)
    requires EncodeState(p1, c1, m1).Some? && EncodeState(p2, c2, m2).Some?
    ensures StateKey(EncodeState(p1, c1, m1).value) == StateKey(EncodeState(p2, c2, m2).value) <==>
      Topic(p1) == Topic(p2) && LengthBucket(|p1|) == LengthBucket(|p2|) && m1 == m2 &&
      ProfileField(c1, "sector") == ProfileField(c2, "sector") && ProfileField(c1, "size") == ProfileField(c2, "size")
  {
    var s1, s2 := EncodeState(p1, c1, m1).value, EncodeState(p2, c2, m2).value;
    if StateKey(s1) == StateKey(s2) {
      EncodedKeyDetermines(s1, s2);
      assert Fields(s1)[0] == Fields(s2)[0] && Fields(s1)[1] == Fields(s2)[1] && Fields(s1)[2] == Fields(s2)[2];
      assert Fields(s1)[3] == Fields(s2)[3] && Fields(s1)[4] == Fields(s2)[4];
    }
  }
}
