/**
 * The column-name cleaning of `csv_to_sqlite` (main.py): strip the surrounding
 * whitespace, lower-case, turn each space into `_`, then delete every character outside
 * `[a-z0-9_]`.
 */
module ColumnNames {
  import opened Text

  predicate IsCleanChar(c: char) {
    IsLower(c) || IsDigit(c) || c == '_'
  }

  predicate IsClean(s: string) {
    forall i :: 0 <= i < |s| ==> IsCleanChar(s[i])
  }

  /** `.str.replace(' ', '_')`. */
  function SpacesToUnderscores(s: string): string {
    seq(|s|, i requires 0 <= i < |s| => if s[i] == ' ' then '_' else s[i])
  }

  /** `.str.replace(r'[^a-z0-9_]', '', regex=True)`: keeps the clean characters, in order. */
  function KeepCleanChars(s: string): (r: string)
    ensures IsClean(r) && |r| <= |s|
    ensures IsClean(s) ==> r == s
    decreases |s|
  {
    if s == [] then []
    else if IsCleanChar(s[0]) then [s[0]] + KeepCleanChars(s[1..])
    else KeepCleanChars(s[1..])
  }

  /** The deletion works character by character: it distributes over concatenation. */
  lemma {:induction false} KeepCleanCharsConcat(a: string, b: string)
    ensures KeepCleanChars(a + b) == KeepCleanChars(a) + KeepCleanChars(b)
    decreases |a|
  {
    if a == [] {
      assert a + b == b;
    } else {
      assert (a + b)[1..] == a[1..] + b;
      KeepCleanCharsConcat(a[1..], b);
    }
  }

  /** One character survives exactly when it is in `[a-z0-9_]`. */
  lemma KeepCleanCharsOne(c: char)
    ensures KeepCleanChars([c]) == if IsCleanChar(c) then [c] else []
  {
    assert [c][1..] == [];
  }

  function CleanColumn(name: string): (r: string)
    ensures IsClean(r) && |r| <= |name|
  {
    KeepCleanChars(SpacesToUnderscores(Lower(Strip(name))))
  }

  function CleanColumns(cols: seq<string>): (r: seq<string>)
    ensures |r| == |cols| && forall i :: 0 <= i < |cols| ==> r[i] == CleanColumn(cols[i])
  {
    seq(|cols|, i requires 0 <= i < |cols| => CleanColumn(cols[i]))
  }

  /**
   * On a name made of ASCII letters, digits, `_` and spaces (once stripped), cleaning
   * keeps every character in place: letters are lower-cased and spaces become `_`.
   */
  lemma CleanColumnOfPlainName(s: string)
    requires forall i :: 0 <= i < |Strip(s)| ==>
               IsCased(Strip(s)[i]) || IsDigit(Strip(s)[i]) || Strip(s)[i] == '_' || Strip(s)[i] == ' '
    ensures |CleanColumn(s)| == |Strip(s)|
    ensures forall i :: 0 <= i < |Strip(s)| ==>
              CleanColumn(s)[i] == if Strip(s)[i] == ' ' then '_' else LowerChar(Strip(s)[i])
  {
    var t := Strip(s);
    var u := SpacesToUnderscores(Lower(t));
    forall i | 0 <= i < |u| ensures IsCleanChar(u[i]) && u[i] == if t[i] == ' ' then '_' else LowerChar(t[i]) {
      assert Lower(t)[i] == LowerChar(t[i]);
    }
    assert IsClean(u);
  }

  /** A name is left as it is exactly when it is already clean. */
  lemma CleanFixedPoints(s: string)
    ensures CleanColumn(s) == s <==> IsClean(s)
  {
    if IsClean(s) {
      forall i | 0 <= i < |s| ensures !IsSpace(s[i]) {
        assert IsCleanChar(s[i]);
      }
      StripWithoutSpaces(s);
      assert Lower(s) == s;
      assert SpacesToUnderscores(s) == s;
    }
  }

  /** Cleaning a cleaned name again gives the same name. */
  lemma CleanIdempotent(s: string)
    ensures CleanColumn(CleanColumn(s)) == CleanColumn(s)
  {
    CleanFixedPoints(CleanColumn(s));
  }
}
