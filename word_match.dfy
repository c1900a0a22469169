/** The filename test of `extract_signals`:
    `re.search(rf"\b{label}\b", name, flags=re.IGNORECASE)` for a label written
    without regular-expression metacharacters. */
module WordMatch {

  /** A character of Python's `\w` class, restricted to ASCII: a letter, a digit or `_`. */
  predicate IsWordChar(c: char)
  {
    ('a' <= c <= 'z') || ('A' <= c <= 'Z') || ('0' <= c <= '9') || c == '_'
  }

  /** ASCII case folding: upper-case letters become lower-case, everything else is kept. */
  function Fold(c: char): char
  {
    if 'A' <= c <= 'Z' then (c as int + 32) as char else c
  }

  /** The string with every character folded. */
  function Lower(s: string): (r: string)
    ensures |r| == |s| && forall k :: 0 <= k < |s| ==> r[k] == Fold(s[k])
  {
    seq(|s|, k requires 0 <= k < |s| => Fold(s[k]))
  }

  /** Position `i` of `s` holds a word character (false outside the string). */
  predicate WordAt(s: string, i: int)
  {
    0 <= i < |s| && IsWordChar(s[i])
  }

  /** `\b` holds at position `i`: a word character on exactly one side of it. */
  predicate Boundary(s: string, i: int)
  {
    WordAt(s, i - 1) != WordAt(s, i)
  }

  /** The characters of `s` from position `i` on spell the label, ignoring case. */
  predicate LabelAt(s: string, treatment: string, i: nat)
  {
    i + |treatment| <= |s| && forall k :: 0 <= k < |treatment| ==> Fold(s[i + k]) == Fold(treatment[k])
  }

  /** The pattern `\b<label>\b` matches `s` at position `i`. */
  predicate MatchAt(s: string, treatment: string, i: nat)
  {
    LabelAt(s, treatment, i) && Boundary(s, i) && Boundary(s, i + |treatment|)
  }

  /** The pattern matches somewhere in `s`: what `re.search` reports. */
  ghost predicate Occurs(s: string, treatment: string)
  {
    exists i: nat :: i <= |s| && MatchAt(s, treatment, i)
  }

  /** Tries every start position from `start` on, left to right, as `re.search` does. */
  function SearchFrom(s: string, treatment: string, start: nat): (found: bool)
    ensures found <==> exists i: nat :: start <= i <= |s| && MatchAt(s, treatment, i)
    decreases |s| + 1 - start
  {
    if start > |s| then false
    else MatchAt(s, treatment, start) || SearchFrom(s, treatment, start + 1)
  }

  /** `re.search(rf"\b{label}\b", s, flags=re.IGNORECASE) is not None`. */
  function Search(s: string, treatment: string): (found: bool)
    ensures found <==> Occurs(s, treatment)
  {
    SearchFrom(s, treatment, 0)
  }

  /** A label that starts and ends with a word character, as every treatment label does. */
  predicate IsWordLabel(treatment: string)
  {
    |treatment| > 0 && IsWordChar(treatment[0]) && IsWordChar(treatment[|treatment| - 1])
  }

  /** For such a label, a match is an occurrence of the label with no letter, digit or
      underscore immediately before it and none immediately after it. */
  lemma MatchIsDelimitedOccurrence(s: string, treatment: string, i: nat)
    requires IsWordLabel(treatment)
    ensures MatchAt(s, treatment, i) <==>
      LabelAt(s, treatment, i)
      && (i == 0 || !IsWordChar(s[i - 1]))
      && (i + |treatment| == |s| || !IsWordChar(s[i + |treatment|]))
  {
  }

  /** Case plays no part: folding the name and the label changes no match. */
  lemma MatchIgnoresCase(s: string, treatment: string, i: nat)
    ensures MatchAt(s, treatment, i) <==> MatchAt(Lower(s), Lower(treatment), i)
  {
  }

  lemma OccursIgnoresCase(s: string, treatment: string)
    ensures Occurs(s, treatment) <==> Occurs(Lower(s), Lower(treatment))
  {
    forall i: nat ensures MatchAt(s, treatment, i) <==> MatchAt(Lower(s), Lower(treatment), i) {
      MatchIgnoresCase(s, treatment, i);
    }
  }

  /** At no position of `x_VC_1.tif` does `\bVC\b` match. */
  lemma NoMatchInPrefixed(i: nat)
    ensures !MatchAt("x_VC_1.tif", "VC", i)
  {
    var s, t := "x_VC_1.tif", "VC";
    if i == 2 {
      assert WordAt(s, 1) && WordAt(s, 2);
    } else {
      assert i + |t| > |s| || Fold(s[i]) != Fold(t[0]);
    }
  }

  /** At no position of `control_1.tif` does `\bcontrol\b` match. */
  lemma NoMatchInSuffixed(i: nat)
    ensures !MatchAt("control_1.tif", "control", i)
  {
    var s, t := "control_1.tif", "control";
    if i == 0 {
      assert WordAt(s, 6) && WordAt(s, 7);
    } else {
      assert i + |t| > |s| || Fold(s[i]) != Fold(t[0]);
    }
  }

  /** Word boundaries follow `\w`: an underscore glues the label to its neighbours. */
  lemma UnderscoreBlocksMatch()
    ensures !Search("x_VC_1.tif", "VC")
    ensures !Search("control_1.tif", "control")
  {
    forall i: nat ensures !MatchAt("x_VC_1.tif", "VC", i) {
      NoMatchInPrefixed(i);
    }
    forall i: nat ensures !MatchAt("control_1.tif", "control", i) {
      NoMatchInSuffixed(i);
    }
  }

  /** A hyphen, a dot, a space or the ends of the name delimit a label; case is ignored. */
  lemma DelimitersAllowMatch()
    ensures Search("x-VC.tif", "VC")
    ensures Search("VC.tif", "VC")
    ensures Search("nomo vc 3.tif", "VC")
    ensures Search("Control 1.tif", "control")
  {
    assert MatchAt("x-VC.tif", "VC", 2);
    assert MatchAt("VC.tif", "VC", 0);
    assert MatchAt("nomo vc 3.tif", "VC", 5);
    assert MatchAt("Control 1.tif", "control", 0);
  }
}
