/** The two expressions of `process_category` and `main` that are not about the tree: the sheet
    name derived from a root's name, and the deadline comparison. */
module Sheets {

  /** The characters `[ ] * ? / \ :`, which a spreadsheet sheet name may not contain. */
  predicate IsForbidden(ch: char) {
    ch == '[' || ch == ']' || ch == '*' || ch == '?' || ch == '/' || ch == '\\' || ch == ':'
  }

  /** Longest sheet name the writer accepts. */
  const MAX_SHEET_NAME: nat := 31

  /** Global deadline of a run, in seconds. */
  const TIME_LIMIT: real := 60.0

  /** Every forbidden character replaced by `_`, every other character kept in place. */
  function Sanitize(name: string): (r: string)
    ensures |r| == |name|
    ensures forall i :: 0 <= i < |r| ==> !IsForbidden(r[i])
    ensures forall i :: 0 <= i < |r| ==> !IsForbidden(name[i]) ==> r[i] == name[i]
    ensures forall i :: 0 <= i < |r| ==> IsForbidden(name[i]) ==> r[i] == '_'
  {
    if name == [] then []
    else
      var ch := name[|name| - 1];
      Sanitize(name[..|name| - 1]) + [if IsForbidden(ch) then '_' else ch]
  }

  /** The sheet name for a root: sanitised, then cut to the first 31 characters. */
  function SheetName(rootName: string): (r: string)
    ensures |r| <= MAX_SHEET_NAME
    ensures |r| == if |rootName| < MAX_SHEET_NAME then |rootName| else MAX_SHEET_NAME
    ensures forall i :: 0 <= i < |r| ==> !IsForbidden(r[i])
    ensures forall i :: 0 <= i < |r| ==> !IsForbidden(rootName[i]) ==> r[i] == rootName[i]
    ensures forall i :: 0 <= i < |r| ==> IsForbidden(rootName[i]) ==> r[i] == '_'
  {
    var s := Sanitize(rootName);
    if |s| <= MAX_SHEET_NAME then s else s[..MAX_SHEET_NAME]
  }

  /** A name that is already a valid sheet name is kept as it is. */
  lemma SheetNameKeepsValid(name: string)
    requires |name| <= MAX_SHEET_NAME
    requires forall i :: 0 <= i < |name| ==> !IsForbidden(name[i])
    ensures SheetName(name) == name
  {
    assert forall i :: 0 <= i < |name| ==> SheetName(name)[i] == name[i];
  }

  /** Sanitising twice is sanitising once. */
  lemma SheetNameIdempotent(name: string)
    ensures SheetName(SheetName(name)) == SheetName(name)
  {
    SheetNameKeepsValid(SheetName(name));
  }

  lemma SheetNameExample()
    ensures SheetName("A/B:C") == "A_B_C"
  {
    var r := SheetName("A/B:C");
    assert r[0] == 'A' && r[1] == '_' && r[2] == 'B' && r[3] == '_' && r[4] == 'C';
  }

  /** The deadline check of `main` and `process_category`, on the elapsed time since the start
      of the run. */
  predicate OverTime(elapsed: real) {
    elapsed > TIME_LIMIT
  }
}
