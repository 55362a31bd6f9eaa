/**
 * The speciality alias groups and the two "do not overwrite an informative
 * name" policies of database.py: `get_equivalent_speciality_codes`,
 * `_should_update_service_name`, and the `_should_update_name` nested in
 * `save_or_update_doctor`.
 */
module Specialities {
  import opened Options
  import opened PyText

  /** `SPECIALITY_ALIASES`: the general practitioner (69) and the therapist (602) are one group. */
  const Aliases: map<string, set<string>> := map["69" := {"69", "602"}, "602" := {"69", "602"}]

  /**
   * `get_equivalent_speciality_codes(code)`: the alias group of the code's text,
   * the code alone when it has no group, and nothing for None or the empty text.
   */
  function EquivalentCodes(code: Option<string>): (r: set<string>)
    ensures r == {} <==> code == None || code.value == ""
    ensures code.Some? && code.value != "" ==> code.value in r
    ensures |r| <= 2
  {
    var text := if code.Some? then code.value else "";
    if text in Aliases then Aliases[text]
    else if text != "" then {text} else {}
  }

  /** 69 and 602 name the same group, and that group has exactly those two codes. */
  lemma TherapistGroup()
    ensures EquivalentCodes(Some("69")) == EquivalentCodes(Some("602")) == {"69", "602"}
  {
  }

  /** A code outside the aliases is equivalent only to itself. */
  lemma UnaliasedCode(c: string)
    requires c != "" && c != "69" && c != "602"
    ensures EquivalentCodes(Some(c)) == {c}
  {
  }

  /**
   * The groups partition the codes: every member of a code's group has the
   * same group, so the relation "d is in the group of c" is an equivalence.
   */
  lemma GroupsAreClasses(c: string, d: string)
    requires d in EquivalentCodes(Some(c))
    ensures EquivalentCodes(Some(d)) == EquivalentCodes(Some(c))
    ensures c in EquivalentCodes(Some(d))
  {
    if c == "69" || c == "602" {
      assert d == "69" || d == "602";
    } else {
      assert d == c;
    }
  }

  // ---------------- name-update policies ----------------

  /** The markers that make a service name informative. */
  const ServiceTokens: seq<string> := ["СМАД", "ЭКГ", "КАБИНЕТ", "РЕНТГЕН"]

  /** The markers that make a doctor name informative (24-hour blood-pressure monitoring). */
  const DoctorTokens: seq<string> := ["СМАД", "СУТОЧ"]

  /** `any(tok in name.upper() for tok in tokens)`. */
  predicate Marked(tokens: seq<string>, name: string) {
    exists i :: 0 <= i < |tokens| && Contains(Upper(name), tokens[i])
  }

  /**
   * The shared shape of both policies: an empty incoming name is never taken, an
   * empty current name is always replaced, and otherwise a marked name does not
   * give way to an unmarked one, a name with digits to one without, nor a name
   * of 8 or more characters to one shorter than 8.
   */
  predicate ShouldUpdate(tokens: seq<string>, current: Option<string>, incoming: Option<string>) {
    if incoming.None? || incoming.value == "" then false
    else if current.None? || current.value == "" then true
    else if Marked(tokens, current.value) && !Marked(tokens, incoming.value) then false
    else if HasDigit(current.value) && !HasDigit(incoming.value) then false
    else if |incoming.value| < 8 && |current.value| >= 8 then false
    else true
  }

  /** `_should_update_service_name(current, incoming)`. */
  predicate ShouldUpdateServiceName(current: Option<string>, incoming: Option<string>) {
    ShouldUpdate(ServiceTokens, current, incoming)
  }

  /** `_should_update_name(current, incoming)` inside `save_or_update_doctor`. */
  predicate ShouldUpdateDoctorName(current: Option<string>, incoming: Option<string>) {
    ShouldUpdate(DoctorTokens, current, incoming)
  }

  /** The incoming name keeps every informative feature the current one has. */
  predicate KeepsInformation(tokens: seq<string>, current: string, incoming: string) {
    && (Marked(tokens, current) ==> Marked(tokens, incoming))
    && (HasDigit(current) ==> HasDigit(incoming))
    && (|current| >= 8 ==> |incoming| >= 8)
  }

  /**
   * A name is replaced exactly when the incoming one is non-empty and either there
   * is no current name or the incoming one keeps every informative feature of the current.
   */
  lemma ShouldUpdateIff(tokens: seq<string>, current: Option<string>, incoming: Option<string>)
    ensures ShouldUpdate(tokens, current, incoming) <==>
      incoming.Some? && incoming.value != "" && (current.None? || current.value == "" || KeepsInformation(tokens, current.value, incoming.value))
  {
  }

  /** An empty or missing incoming name never replaces anything; a missing or empty current name always gives way. */
  lemma EmptyNames(tokens: seq<string>, current: Option<string>, incoming: string)
    ensures !ShouldUpdate(tokens, current, None) && !ShouldUpdate(tokens, current, Some(""))
    ensures incoming != "" ==> ShouldUpdate(tokens, None, Some(incoming)) && ShouldUpdate(tokens, Some(""), Some(incoming))
  {
  }

  /** Saving the same non-empty name again is always allowed. */
  lemma SameNameUpdates(tokens: seq<string>, name: string)
    requires name != ""
    ensures ShouldUpdate(tokens, Some(name), Some(name))
  {
  }

  /**
   * Two accepted updates in a row are one accepted update: the policy never
   * lets information lost in two steps through that it refuses in one.
   */
  lemma UpdatesCompose(tokens: seq<string>, a: string, b: string, c: string)
    requires a != "" && ShouldUpdate(tokens, Some(a), Some(b)) && ShouldUpdate(tokens, Some(b), Some(c))
    ensures ShouldUpdate(tokens, Some(a), Some(c))
  {
    ShouldUpdateIff(tokens, Some(a), Some(b));
    ShouldUpdateIff(tokens, Some(b), Some(c));
    ShouldUpdateIff(tokens, Some(a), Some(c));
  }

  /** A current service name naming a room (`КАБИНЕТ`) is not replaced by a name without one of the markers. */
  lemma CabinetNameKept(current: string, incoming: string)
    requires Contains(Upper(current), "КАБИНЕТ") && incoming != ""
    requires forall i :: 0 <= i < |ServiceTokens| ==> !Contains(Upper(incoming), ServiceTokens[i])
    ensures !ShouldUpdateServiceName(Some(current), Some(incoming))
  {
    assert ServiceTokens[2] == "КАБИНЕТ";
    assert Marked(ServiceTokens, current);
  }
}
