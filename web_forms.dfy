/**
 * Two pieces of form handling in web_app.py: `_coerce_value`, which turns the
 * text an admin typed into a value of the kind the edited field holds, and the
 * rule handling of `add_track`, which merges the rules typed into the form and
 * appends the ones the tracking record does not have yet.
 */
module WebForms {
  import opened Options
  import opened PyText
  import opened Sequences
  import opened WebRules
  import StoredRules

  type StoredRule = StoredRules.StoredRule

  // ---------------- _coerce_value ----------------

  /**
   * The values a model field holds, as far as `_coerce_value` tells them apart:
   * Python's None, booleans, integers, lists, text, and anything else.
   */
  datatype Value =
    | NoneValue
    | BoolValue(b: bool)
    | IntValue(n: int)
    | ListValue(items: seq<Value>)
    | TextValue(s: string)
    | OtherValue

  /** The texts a boolean field reads as True, after lower-casing. */
  const TrueWords: set<string> := {"1", "true", "yes", "on"}

  /** `s.startswith('[') and s.endswith(']')`. */
  predicate Bracketed(s: string) {
    |s| > 0 && s[0] == '[' && s[|s| - 1] == ']'
  }

  /**
   * `_coerce_value(current, value)`. `decoded` is what `json.loads(value)`
   * returns, None where it raises; the JSON parser itself is not modelled.
   * A boolean field is checked before an integer one, as `bool` is a subclass
   * of `int` in Python.
   */
  function CoerceValue(current: Value, value: string, decoded: Option<Value>): (r: Value)
    ensures value == "" ==> r == NoneValue
    ensures value != "" && current.BoolValue? ==> r.BoolValue?
    ensures value != "" && current.IntValue? ==> r.IntValue?
    ensures value != "" && current.TextValue? && !Bracketed(Strip(value)) ==> r == TextValue(value)
  {
    if value == "" then NoneValue
    else if current.BoolValue? then BoolValue(Lower(value) in TrueWords)
    else if current.IntValue? then
      var n := PyInt(value);
      if n.Some? then IntValue(n.value) else current
    else if current.ListValue? || Bracketed(Strip(value)) then
      if decoded.Some? then decoded.value else current
    else TextValue(value)
  }

  /** `str(n)` for an integer. */
  function IntText(n: int): (s: string)
    ensures |s| >= 1
  {
    if n < 0 then "-" + DecimalString(-n) else DecimalString(n)
  }

  /** Python's `int(str(n)) == n`. */
  lemma PyIntOfIntText(n: int)
    ensures PyInt(IntText(n)) == Some(n)
  {
    var digits := DecimalString(if n < 0 then -n else n);
    DecValueOfDecimal(if n < 0 then -n else n);
    if n < 0 {
      PyIntNegative(digits);
    }
  }

  /** An integer field given back the text of an integer holds that integer. */
  lemma IntRoundTrip(current: int, n: int, decoded: Option<Value>)
    ensures CoerceValue(IntValue(current), IntText(n), decoded) == IntValue(n)
  {
    PyIntOfIntText(n);
  }

  /** Text that `int()` refuses leaves an integer field as it was. */
  lemma IntRefusedKept(current: int, value: string, decoded: Option<Value>)
    requires value != "" && PyInt(value).None?
    ensures CoerceValue(IntValue(current), value, decoded) == IntValue(current)
  {
  }

  /** `str(b)` for a boolean: `True` or `False`. */
  function BoolText(b: bool): string {
    if b then "True" else "False"
  }

  lemma LowerTrue()
    ensures Lower("True") == "true"
  {
    LowerCharFacts('T');
  }

  lemma LowerFalse()
    ensures Lower("False") == "false"
  {
    LowerCharFacts('F');
  }

  /** A boolean field given back the text Python prints for a boolean holds that boolean. */
  lemma BoolRoundTrip(current: bool, b: bool, decoded: Option<Value>)
    ensures CoerceValue(BoolValue(current), BoolText(b), decoded) == BoolValue(b)
  {
    if b { LowerTrue(); } else { LowerFalse(); }
  }

  /**
   * The boolean test comes first: digits other than `1` make a boolean field
   * False even though `int()` would accept them.
   */
  lemma BoolBeforeInt(current: bool, value: string, decoded: Option<Value>)
    requires value != "" && IsDigitStr(value) && value != "1"
    ensures PyInt(value).Some?
    ensures CoerceValue(BoolValue(current), value, decoded) == BoolValue(false)
  {
    LowerOfUncasedDigits(value);
    assert Lower(value) != "true" && Lower(value) != "yes" && Lower(value) != "on" by {
      assert IsDigit(Lower(value)[0]);
    }
  }

  lemma LowerOfUncasedDigits(value: string)
    requires IsDigitStr(value)
    ensures Lower(value) == value
  {
    LowerOfDigitsAndDashes(value);
  }

  /** A list field whose new text does not decode keeps its value; one that decodes takes the decoded value. */
  lemma ListField(items: seq<Value>, value: string, decoded: Option<Value>)
    requires value != ""
    ensures CoerceValue(ListValue(items), value, decoded) == if decoded.Some? then decoded.value else ListValue(items)
  {
  }

  // ---------------- add_track ----------------

  /** One comma-separated part of the form text, stripped, when it is not blank. */
  function NonBlank(part: string): Option<string> {
    var t := Strip(part);
    if t != "" then Some(t) else None
  }

  /** `[r.strip() for r in (rules.split(',') if rules else []) if r.strip()]`. */
  function FormRules(rules: Option<string>): seq<string> {
    if rules.None? || rules.value == "" then [] else FlatMap(Split(rules.value, ','), Keep(NonBlank))
  }

  /** The form's rules are the non-blank comma parts, stripped, in order of the parts. */
  lemma {:induction false} FormRulesMember(parts: seq<string>, x: string)
    ensures x in FlatMap(parts, Keep(NonBlank)) <==> exists i :: 0 <= i < |parts| && NonBlank(parts[i]) == Some(x)
  {
    FlatMapMember(parts, Keep(NonBlank), x);
    if x in FlatMap(parts, Keep(NonBlank)) {
      var i :| 0 <= i < |parts| && x in Keep(NonBlank)(parts[i]);
      assert NonBlank(parts[i]) == Some(x);
    }
    if exists i :: 0 <= i < |parts| && NonBlank(parts[i]) == Some(x) {
      var i :| 0 <= i < |parts| && NonBlank(parts[i]) == Some(x);
      assert x in Keep(NonBlank)(parts[i]);
    }
  }

  /** A kept part is never blank, never padded, and holds no comma. */
  lemma NonBlankShape(part: string)
    requires ',' !in part && NonBlank(part).Some?
    ensures NonBlank(part).value != "" && Strip(NonBlank(part).value) == NonBlank(part).value
    ensures ',' !in NonBlank(part).value
  {
    StripIdempotent(part);
    StripIsPart(part);
  }

  /** Stripping keeps only characters of the original. */
  lemma StripIsPart(s: string)
    requires ',' !in s
    ensures ',' !in Strip(s)
  {
    LStripIsSuffix(s);
    RStripIsPrefix(LStrip(s));
  }

  /**
   * `for r in xs: if r not in current: current.append(r)`: `current` followed by
   * the elements of `xs` it does not already hold, each once, in order.
   */
  function AppendMissing<T(==)>(cur: seq<T>, xs: seq<T>): seq<T> {
    if xs == [] then cur
    else
      var acc := AppendMissing(cur, xs[..|xs| - 1]);
      if xs[|xs| - 1] in acc then acc else acc + [xs[|xs| - 1]]
  }

  /** The existing list is kept, in its order, as a prefix. */
  lemma {:induction false} AppendMissingPrefix<T>(cur: seq<T>, xs: seq<T>)
    ensures |cur| <= |AppendMissing(cur, xs)| && AppendMissing(cur, xs)[..|cur|] == cur
  {
    if xs != [] {
      var acc := AppendMissing(cur, xs[..|xs| - 1]);
      AppendMissingPrefix(cur, xs[..|xs| - 1]);
      assert (acc + [xs[|xs| - 1]])[..|cur|] == acc[..|cur|];
    }
  }

  /** The result holds exactly what either list holds. */
  lemma {:induction false} AppendMissingMember<T>(cur: seq<T>, xs: seq<T>, x: T)
    ensures x in AppendMissing(cur, xs) <==> x in cur || x in xs
  {
    if xs != [] {
      var init := xs[..|xs| - 1];
      AppendMissingMember(cur, init, x);
      assert xs == init + [xs[|xs| - 1]];
    }
  }

  /** No repeats are introduced: a list without repeats stays without repeats. */
  lemma {:induction false} AppendMissingDistinct<T>(cur: seq<T>, xs: seq<T>)
    requires Distinct(cur)
    ensures Distinct(AppendMissing(cur, xs))
  {
    if xs != [] {
      AppendMissingDistinct(cur, xs[..|xs| - 1]);
    }
  }

  /** A batch whose every element is already present changes nothing. */
  lemma {:induction false} AppendMissingKnown<T>(cur: seq<T>, xs: seq<T>)
    requires forall i :: 0 <= i < |xs| ==> xs[i] in cur
    ensures AppendMissing(cur, xs) == cur
  {
    if xs != [] {
      AppendMissingKnown(cur, xs[..|xs| - 1]);
    }
  }

  /** Appending the same batch twice appends nothing the second time. */
  lemma AppendMissingIdempotent<T>(cur: seq<T>, xs: seq<T>)
    ensures AppendMissing(AppendMissing(cur, xs), xs) == AppendMissing(cur, xs)
  {
    forall i | 0 <= i < |xs| ensures xs[i] in AppendMissing(cur, xs) {
      AppendMissingMember(cur, xs, xs[i]);
    }
    AppendMissingKnown(AppendMissing(cur, xs), xs);
  }

  /** The count of appended elements is the number of elements of the batch the list did not hold. */
  lemma {:induction false} AppendMissingCount<T>(cur: seq<T>, xs: seq<T>)
    requires Distinct(xs)
    ensures |AppendMissing(cur, xs)| - |cur| == |set i | 0 <= i < |xs| && xs[i] !in cur|
  {
    if xs != [] {
      var n := |xs| - 1;
      var init := xs[..n];
      assert Distinct(init) by {
        assert forall i :: 0 <= i < |init| ==> init[i] == xs[i];
      }
      AppendMissingCount(cur, init);
      AppendMissingMember(cur, init, xs[n]);
      var before := set i | 0 <= i < n && init[i] !in cur;
      var after := set i | 0 <= i < |xs| && xs[i] !in cur;
      assert xs[n] !in init;
      if xs[n] in cur {
        assert after == before;
      } else {
        assert after == before + {n};
      }
    }
  }

  /** `add_track`'s dedup loop over the merged rules, with its `seen` set. */
  method Dedup(ruleList: seq<string>) returns (dedup: seq<string>)
    ensures dedup == AppendMissing([], ruleList)
  {
    var seen: set<string> := {};
    dedup := [];
    var i := 0;
    while i < |ruleList|
      invariant 0 <= i <= |ruleList|
      invariant dedup == AppendMissing([], ruleList[..i])
      invariant forall x :: x in seen <==> x in dedup
    {
      assert ruleList[..i + 1][..i] == ruleList[..i];
      if ruleList[i] !in seen {
        seen := seen + {ruleList[i]};
        dedup := dedup + [ruleList[i]];
      }
      i := i + 1;
    }
    assert ruleList[..i] == ruleList;
  }

  /** The rule texts as elements of a stored rule list. */
  function AsTexts(xs: seq<string>): (r: seq<StoredRule>)
    ensures |r| == |xs|
    ensures forall i :: 0 <= i < |xs| ==> r[i] == StoredRules.RuleText(xs[i])
  {
    if xs == [] then [] else AsTexts(xs[..|xs| - 1]) + [StoredRules.RuleText(xs[|xs| - 1])]
  }

  /** A tracking record row's rule list, which `add_track` extends in place. */
  class TrackedDoctor {
    var trackingRules: seq<StoredRule>

    constructor(rules: seq<StoredRule>)
      ensures trackingRules == rules
    {
      trackingRules := rules;
    }

    /**
     * The append loop of `add_track` on an existing record: each rule not yet
     * in the list is appended. A text rule and a structured one are never equal.
     */
    method AppendRules(dedup: seq<string>) returns (added: nat)
      modifies this
      ensures trackingRules == AppendMissing(old(trackingRules), AsTexts(dedup))
      ensures added == |trackingRules| - |old(trackingRules)|
    {
      var current := trackingRules;
      var start := trackingRules;
      added := 0;
      var i := 0;
      while i < |dedup|
        invariant 0 <= i <= |dedup|
        invariant current == AppendMissing(start, AsTexts(dedup[..i]))
        invariant added == |current| - |start|
      {
        AppendMissingPrefix(start, AsTexts(dedup[..i]));
        assert AsTexts(dedup[..i + 1]) == AsTexts(dedup[..i]) + [StoredRules.RuleText(dedup[i])];
        assert (AsTexts(dedup[..i]) + [StoredRules.RuleText(dedup[i])])[..i] == AsTexts(dedup[..i]);
        if StoredRules.RuleText(dedup[i]) !in current {
          current := current + [StoredRules.RuleText(dedup[i])];
          added := added + 1;
        }
        i := i + 1;
      }
      assert dedup[..i] == dedup;
      trackingRules := current;
    }
  }

  /** What `add_track` stores: a new record with these rules, or the existing record's extended list and the count added. */
  datatype TrackChange =
    | Created(rules: seq<string>)
    | Extended(stored: seq<StoredRule>, added: nat)

  /**
   * The rule handling of `add_track`: the form's rules are merged, deduplicated
   * and either become a new record's rules or are appended to the existing
   * record's list. None where `_merge_rules` raises and nothing is stored.
   */
  function AddTrack(existing: Option<seq<StoredRule>>, form: Option<string>): Option<TrackChange> {
    StoreMerged(existing, MergeRules(FormRules(form)))
  }

  /** What `add_track` stores once the form's rules merged to `merged` (None: the merge raised). */
  function StoreMerged(existing: Option<seq<StoredRule>>, merged: Option<seq<string>>): Option<TrackChange> {
    if merged.None? then None
    else
      var dedup := AppendMissing([], merged.value);
      if existing.None? then Some(Created(dedup))
      else
        var ext := AppendMissing(existing.value, AsTexts(dedup));
        AppendMissingPrefix(existing.value, AsTexts(dedup));
        Some(Extended(ext, |ext| - |existing.value|))
  }

  /**
   * `add_track` on a form: the record, if there is one, has its list extended
   * in place; the result says what was stored.
   */
  method AddTrackForm(record: TrackedDoctor?, form: Option<string>) returns (r: Option<TrackChange>)
    modifies record
    ensures r == AddTrack(if record == null then None else Some(old(record.trackingRules)), form)
    ensures record != null && r.Some? ==> record.trackingRules == r.value.stored
    ensures record != null && r.None? ==> record.trackingRules == old(record.trackingRules)
  {
    var ruleList := FormRules(form);
    var merged := MergeRulesLoop(ruleList);
    if merged.None? {
      return None;
    }
    r := StoreRules(record, merged.value);
  }

  /** The part of `add_track` after the merge: dedup, then a new list or an in-place extension. */
  method StoreRules(record: TrackedDoctor?, merged: seq<string>) returns (r: Option<TrackChange>)
    modifies record
    ensures r == StoreMerged(if record == null then None else Some(old(record.trackingRules)), Some(merged))
    ensures record != null ==> r.Some? && record.trackingRules == r.value.stored
  {
    var dedup := Dedup(merged);
    if record == null {
      return Some(Created(dedup));
    }
    ghost var existing := record.trackingRules;
    var added := record.AppendRules(dedup);
    StoreMergedExtends(existing, merged);
    return Some(Extended(record.trackingRules, added));
  }

  lemma StoreMergedExtends(existing: seq<StoredRule>, merged: seq<string>)
    ensures |AppendMissing(existing, AsTexts(AppendMissing([], merged)))| >= |existing|
    ensures var ext := AppendMissing(existing, AsTexts(AppendMissing([], merged)));
      StoreMerged(Some(existing), Some(merged)) == Some(Extended(ext, |ext| - |existing|))
  {
    AppendMissingPrefix(existing, AsTexts(AppendMissing([], merged)));
  }

  /**
   * On an existing record `add_track` keeps every stored rule in place,
   * adds each merged rule it lacks exactly once, and repeats nothing;
   * submitting the same form again adds nothing.
   */
  lemma AddTrackExtends(existing: seq<StoredRule>, form: Option<string>, x: StoredRule)
    requires AddTrack(Some(existing), form).Some?
    ensures var e := AddTrack(Some(existing), form).value;
      var merged := MergeRules(FormRules(form)).value;
      && e.Extended?
      && e.stored[..|existing|] == existing
      && (x in e.stored <==> x in existing || x in AsTexts(merged))
      && (Distinct(existing) ==> Distinct(e.stored))
      && AddTrack(Some(e.stored), form) == Some(Extended(e.stored, 0))
  {
    var merged := MergeRules(FormRules(form)).value;
    var dedup := AppendMissing([], merged);
    var ext := AppendMissing(existing, AsTexts(dedup));
    AppendMissingPrefix(existing, AsTexts(dedup));
    AppendMissingMember(existing, AsTexts(dedup), x);
    if Distinct(existing) {
      AppendMissingDistinct(existing, AsTexts(dedup));
    }
    AppendMissingIdempotent(existing, AsTexts(dedup));
    TextsMember(dedup, merged, x);
  }

  /** A text is among the stored dedup texts exactly when it is among the merged ones. */
  lemma TextsMember(dedup: seq<string>, merged: seq<string>, x: StoredRule)
    requires dedup == AppendMissing([], merged)
    ensures x in AsTexts(dedup) <==> x in AsTexts(merged)
  {
    if x in AsTexts(dedup) {
      var i :| 0 <= i < |dedup| && AsTexts(dedup)[i] == x;
      AppendMissingMember([], merged, dedup[i]);
      var j :| 0 <= j < |merged| && merged[j] == dedup[i];
      assert AsTexts(merged)[j] == x;
    }
    if x in AsTexts(merged) {
      var j :| 0 <= j < |merged| && AsTexts(merged)[j] == x;
      AppendMissingMember([], merged, merged[j]);
      var i :| 0 <= i < |dedup| && dedup[i] == merged[j];
      assert AsTexts(dedup)[i] == x;
    }
  }

  /** A new record gets the merged rules without repeats. */
  lemma AddTrackCreates(form: Option<string>, x: string)
    requires AddTrack(None, form).Some?
    ensures var c := AddTrack(None, form).value;
      && c.Created?
      && Distinct(c.rules)
      && (x in c.rules <==> x in MergeRules(FormRules(form)).value)
  {
    var merged := MergeRules(FormRules(form)).value;
    AppendMissingDistinct([], merged);
    AppendMissingMember([], merged, x);
  }

  /** An empty or missing form gives no rules at all. */
  lemma EmptyFormNoRules(existing: Option<seq<StoredRule>>)
    ensures AddTrack(existing, Some("")) == AddTrack(existing, None)
    ensures existing.None? ==> AddTrack(existing, None) == Some(Created([]))
    ensures existing.Some? ==> AddTrack(existing, None) == Some(Extended(existing.value, 0))
  {
    assert MergeRules([]) == Some([]) by {
      assert Parsed([]) == [];
      assert Prefixes([]) == [];
    }
  }
}
