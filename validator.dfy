/** The live check run on every change of a "new name" field: the length
    counter and the "Invalid Char!" flag (BatchRename.py, `on_change`). The same
    character test decides, in the batch rename, which candidates are skipped. */
module Validator {

  /** The characters Windows does not allow in a file name, taken literally. */
  const Forbidden: set<char> := {'\\', '/', ':', '*', '?', '"', '<', '>', '|'}

  /** `any(c in r'\/:*?"<>|' for c in s)`, walking the text from the front. */
  function AnyInvalid(s: string): (r: bool)
    ensures r <==> exists k :: 0 <= k < |s| && s[k] in Forbidden
  {
    if s == [] then false
    else if s[0] in Forbidden then true
    else
      assert forall k :: 1 <= k < |s| ==> s[k] == s[1..][k - 1];
      AnyInvalid(s[1..])
  }

  /** What the row shows after an edit: the length label and whether the
      status label reads "Invalid Char!" (otherwise it is cleared). */
  datatype Feedback = Feedback(length: nat, invalid: bool)

  /** `on_change`: the counter is the length of the raw text, untrimmed; the
      flag is raised exactly when some character of the text is forbidden. */
  function OnChange(text: string): (f: Feedback)
    ensures f.length == |text|
    ensures f.invalid <==> exists k :: 0 <= k < |text| && text[k] in Forbidden
    ensures !f.invalid <==> forall k :: 0 <= k < |text| ==> text[k] !in Forbidden
  {
    Feedback(|text|, AnyInvalid(text))
  }
}
