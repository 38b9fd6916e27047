/**
 * The action vocabulary and the mapping from an action to the metadata filter
 * handed to the retrieval layer. `None` means "no constraint".
 */
module RetrievalPolicies {
  import opened Wrappers
  import opened Text

  /** `ACTIONS` */
  const Actions: seq<string> := ["broad", "legal_only", "financial_only", "company_only"]

  /** A metadata filter: field name to required value. */
  type Filter = map<string, string>

  /** `(action or "").lower()`: empty for a null action, and free of capitals. */
  function Normalize(action: Option<string>): (a: string)
    ensures action.None? ==> a == ""
    ensures action.Some? ==> |a| == |action.value|
    ensures forall i :: 0 <= i < |a| ==> !('A' <= a[i] <= 'Z')
  {
    Lower(action.GetOr(""))
  }

  /** `action_to_filter(action, company_name)` */
  function ActionToFilter(action: Option<string>, companyName: Option<string>): (r: Option<Filter>)
    ensures Normalize(action) == "broad" ==> r == None
    ensures Normalize(action) == "legal_only" ==> r == Some(map["doc_type" := "legal"])
    ensures Normalize(action) == "financial_only" ==> r == Some(map["doc_type" := "financial"])
    ensures Normalize(action) == "company_only" && companyName.Some? && companyName.value != "" ==>
              r == Some(map["company" := companyName.value])
    ensures Normalize(action) == "company_only" && (companyName.None? || companyName.value == "") ==>
              r == Some(map["doc_type" := "company"])
    ensures Normalize(action) !in Actions ==> r == None
    ensures r.Some? <==> Normalize(action) in Actions[1..]
    ensures r.Some? ==> |r.value| == 1 && (r.value.Keys == {"doc_type"} || r.value.Keys == {"company"})
  {
    var a := Normalize(action);
    if a == "broad" then None
    else if a == "legal_only" then Some(map["doc_type" := "legal"])
    else if a == "financial_only" then Some(map["doc_type" := "financial"])
    else if a == "company_only" then
      if companyName.Some? && companyName.value != "" then Some(map["company" := companyName.value])
      else Some(map["doc_type" := "company"])
    else None
  }

  /** Matching ignores case: an action and its lower-cased form give the same filter. */
  lemma ActionToFilterIgnoresCase(action: string, companyName: Option<string>)
    ensures ActionToFilter(Some(action), companyName) == ActionToFilter(Some(Lower(action)), companyName)
  {
    LowerIdempotent(action);
  }

  /** A null action and an empty one fail open: no constraint. */
  lemma MissingActionIsBroad(companyName: Option<string>)
    ensures ActionToFilter(None, companyName) == None
    ensures ActionToFilter(Some(""), companyName) == None
  {
  }
}
