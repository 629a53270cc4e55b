/**
 The name prompt of the chapter hotkeys plugin: the whitespace trimming
 applied to whatever the user typed, and the outcome of the prompt.

 Only the space and the horizontal tab count as whitespace. Trimming first
 erases from the back, then from the front; `TrimBack` and `TrimFront` are
 the specification of those two loops and `Clean` of the whole operation.
 `TrimmedAt` is an independent description of a trimmed result (a slice of
 the input with only whitespace cut off and no whitespace left at either
 end); `CleanSlice` and `CleanUnique` show that `Clean` is exactly the
 string it describes.
 */
module NameDialog {

  /** The only two characters the prompt treats as whitespace; line breaks,
      form feeds and vertical tabs are not among them. */
  predicate IsWhitespace(ch: char)
    ensures IsWhitespace(ch) <==> ch in " \t"
  {
    ch == ' ' || ch == '\t'
  }

  ghost predicate AllWhitespace(s: string) {
    forall k :: 0 <= k < |s| ==> IsWhitespace(s[k])
  }

  /** Every character of `s` at positions `lo` up to (not including) `hi`
      is whitespace. */
  ghost predicate BlankBetween(s: string, lo: int, hi: int)
    requires 0 <= lo <= hi <= |s|
  {
    forall k :: lo <= k < hi ==> IsWhitespace(s[k])
  }

  /** Neither the first nor the last character is whitespace. */
  ghost predicate NoEdgeWhitespace(s: string) {
    s == [] || (!IsWhitespace(s[0]) && !IsWhitespace(s[|s| - 1]))
  }

  /** `s[i..j]` is what is left of `s` once whitespace-only ends are cut off
      and no whitespace remains at either end of it. */
  ghost predicate TrimmedAt(s: string, i: int, j: int) {
    && 0 <= i <= j <= |s|
    && BlankBetween(s, 0, i)
    && BlankBetween(s, j, |s|)
    && (i < j ==> !IsWhitespace(s[i]) && !IsWhitespace(s[j - 1]))
  }

  /** The first loop: erase the last character while it is whitespace. */
  function TrimBack(s: string): (r: string)
    ensures |r| <= |s| && r == s[..|r|]
    ensures BlankBetween(s, |r|, |s|)
    ensures r == [] || !IsWhitespace(r[|r| - 1])
    decreases |s|
  {
    if |s| > 0 && IsWhitespace(s[|s| - 1]) then
      var r := TrimBack(s[..|s| - 1]);
      assert s[..|s| - 1][..|r|] == s[..|r|];
      assert forall k :: |r| <= k < |s| - 1 ==> s[k] == s[..|s| - 1][k];
      r
    else
      s
  }

  /** The second loop: erase the first character while it is whitespace. */
  function TrimFront(s: string): (r: string)
    ensures |r| <= |s| && r == s[|s| - |r|..]
    ensures BlankBetween(s, 0, |s| - |r|)
    ensures r == [] || !IsWhitespace(r[0])
    decreases |s|
  {
    if |s| > 0 && IsWhitespace(s[0]) then
      var r := TrimFront(s[1..]);
      assert s[1..][|s| - 1 - |r|..] == s[|s| - |r|..];
      assert forall k :: 1 <= k < |s| - |r| ==> s[k] == s[1..][k - 1];
      r
    else
      s
  }

  /** The whole trim: back first, then front. */
  function Clean(s: string): (r: string)
    ensures |r| <= |s|
    ensures NoEdgeWhitespace(r)
  {
    var t := TrimBack(s);
    var r := TrimFront(t);
    assert r != [] ==> r[|r| - 1] == t[|t| - 1];
    r
  }

  /** The in-place trim of the prompt: the string is passed in and its new
      value is returned. */
  method CleanWhitespace(str: string) returns (r: string)
    ensures r == Clean(str)
  {
    r := str;
    while |r| > 0 && IsWhitespace(r[|r| - 1])
      invariant TrimBack(r) == TrimBack(str)
      decreases |r|
    {
      r := r[..|r| - 1];
    }
    ghost var back := r;
    while |r| > 0 && IsWhitespace(r[0])
      invariant TrimFront(r) == TrimFront(back)
      decreases |r|
    {
      r := r[1..];
    }
  }

  /** The trimmed name is a slice of the input obtained by cutting off
      whitespace only, with no whitespace left at its ends. */
  lemma CleanSlice(s: string) returns (i: nat, j: nat)
    ensures TrimmedAt(s, i, j)
    ensures Clean(s) == s[i..j]
  {
    var t := TrimBack(s);
    var r := TrimFront(t);
    i, j := |t| - |r|, |t|;
    assert s[i..j] == t[i..];
    assert forall k :: 0 <= k < i ==> s[k] == t[k];
  }

  /** A character that is not whitespace always lies inside the kept slice. */
  lemma NonWhitespaceInside(s: string, i: int, j: int, k: int)
    requires TrimmedAt(s, i, j)
    requires 0 <= k < |s| && !IsWhitespace(s[k])
    ensures i <= k < j
  {
  }

  /** Two slices that both satisfy `TrimmedAt` have the same bounds, or are
      both empty. */
  lemma SameBounds(s: string, i: int, j: int, i': int, j': int)
    requires TrimmedAt(s, i, j) && TrimmedAt(s, i', j')
    ensures i < j ==> i == i' && j == j'
    ensures i == j ==> i' == j'
  {
    if i < j {
      NonWhitespaceInside(s, i', j', i);
      NonWhitespaceInside(s, i', j', j - 1);
    }
    if i' < j' {
      NonWhitespaceInside(s, i, j, i');
      NonWhitespaceInside(s, i, j, j' - 1);
    }
  }

  /** Any slice described by `TrimmedAt` is the result of `Clean`: together
      with `CleanSlice` this characterises the trim completely. */
  lemma CleanUnique(s: string, i: int, j: int)
    requires TrimmedAt(s, i, j)
    ensures s[i..j] == Clean(s)
  {
    var i', j' := CleanSlice(s);
    SameBounds(s, i, j, i', j');
    if i == j {
      assert s[i'..j'] == [];
    }
  }

  /** Trimming yields the empty string exactly when the input is made of
      spaces and tabs only. */
  lemma CleanEmptyIffAllWhitespace(s: string)
    ensures Clean(s) == [] <==> AllWhitespace(s)
  {
    var i, j := CleanSlice(s);
    if Clean(s) != [] {
      assert s[i..j][0] == s[i];
    }
  }

  /** A string without whitespace at its ends (newlines and other characters
      do not count) is left exactly as it is, interior blanks included. */
  lemma CleanKeepsTrimmed(s: string)
    requires NoEdgeWhitespace(s)
    ensures Clean(s) == s
  {
    assert s[0..|s|] == s;
    CleanUnique(s, 0, |s|);
  }

  /** Trimming twice is trimming once. */
  lemma CleanIdempotent(s: string)
    ensures Clean(Clean(s)) == Clean(s)
  {
    CleanKeepsTrimmed(Clean(s));
  }

  /** Interior blanks are kept while the blanks at both ends go. */
  lemma CleanExampleInterior()
    ensures Clean("  a b\t") == "a b"
  {
    var s := "  a b\t";
    assert TrimmedAt(s, 2, 5);
    assert s[2..5] == "a b";
    CleanUnique(s, 2, 5);
  }

  /** A name made only of tabs trims to nothing. */
  lemma CleanExampleBlank()
    ensures Clean("\t\t") == ""
  {
    CleanEmptyIffAllWhitespace("\t\t");
  }

  /** A newline is not whitespace here: at either end it survives. */
  lemma CleanExampleNewline()
    ensures Clean(" \na\n ") == "\na\n"
  {
    var u := " \na\n ";
    assert TrimmedAt(u, 1, 4);
    assert u[1..4] == "\na\n";
    CleanUnique(u, 1, 4);
  }

  /**
   The prompt itself. The dialog is not shown: whether the user confirmed
   it and the text in the line edit at that moment are inputs. On cancel
   the output parameter keeps its previous value; on confirm it receives
   the trimmed text.
   */
  method AskForName(accepted: bool, typed: string, userTextInput: string)
    returns (ok: bool, text: string)
    ensures ok == accepted
    ensures !accepted ==> text == userTextInput
    ensures accepted ==> text == Clean(typed)
  {
    if !accepted {
      return false, userTextInput;
    }
    text := CleanWhitespace(typed);
    ok := true;
  }
}
