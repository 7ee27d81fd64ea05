/** `allowed_file`: the upload's name must end in one of the accepted extensions. */
module Validation {
  import opened Text

  const AllowedExtensions: set<string> := {"xlsx", "xls", "csv"}

  /**
   * The name has a '.', and the text after its last '.', lower-cased, is one
   * of the allowed extensions. Lower-casing is ASCII; no character outside ASCII lower-cases to one of
   * the letters c, l, s, v, x, so for these extensions it agrees with Python.
   */
  predicate AllowedFile(name: string)
  {
    '.' in name && Lower(AfterLast(name, '.')) in AllowedExtensions
  }

  /** Position `i` holds the last '.' of `name`. */
  predicate LastDotAt(name: string, i: int)
  {
    0 <= i < |name| && name[i] == '.' && '.' !in name[i + 1..]
  }

  /**
   * A name is accepted exactly when it has a last '.', and the text after it,
   * lower-cased, is xlsx, xls or csv.
   */
  lemma AllowedFileIff(name: string)
    ensures AllowedFile(name) <==>
      exists i :: LastDotAt(name, i) && Lower(name[i + 1..]) in AllowedExtensions
  {
    if '.' in name {
      var r := AfterLast(name, '.');
      var i := |name| - |r| - 1;
      assert LastDotAt(name, i) && name[i + 1..] == r;
      forall j | LastDotAt(name, j) ensures name[j + 1..] == r {
        AfterLastIsUnique(name, '.', j);
      }
    }
  }

  /** "a.b.CSV" is accepted: only the text after the last '.' counts, in any case. */
  lemma AcceptsUpperCaseLastExtension()
    ensures AllowedFile("a.b.CSV")
  {
    AfterLastIsUnique("a.b.CSV", '.', 3);
    assert "a.b.CSV"[4..] == "CSV";
    assert Lower("CSV") == "csv";
  }

  /** ".csv" is accepted: the text before the '.' may be empty. */
  lemma AcceptsBareExtension()
    ensures AllowedFile(".csv")
  {
    AfterLastIsUnique(".csv", '.', 0);
    assert ".csv"[1..] == "csv";
    assert Lower("csv") == "csv";
  }

  /** "csv" is refused: a name without any '.' has no extension. */
  lemma RejectsNameWithoutDot()
    ensures !AllowedFile("csv")
  {
  }

  /** "a.txt" is refused, and so is "data.csv.txt": only the last extension counts. */
  lemma RejectsOtherExtensions()
    ensures !AllowedFile("a.txt")
    ensures !AllowedFile("data.csv.txt")
  {
  }
}
