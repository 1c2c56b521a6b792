/** A student as read from the input: an identifier, a grade level and the
    ordered list of session names it asked for (student.py). Choices are
    stored normalised, i.e. with surrounding whitespace removed and lowered,
    so that they compare equal to session names normalised the same way. */
module Students {

  /** The characters Python's `str.strip()` removes: those for which
      `str.isspace()` holds, ASCII and Unicode alike. */
  predicate IsSpace(c: char) {
    c == ' ' || c == '\t' || c == '\n' || c == '\r' || c == '\U{B}' || c == '\U{C}'
    || ('\U{1C}' <= c <= '\U{1F}') || c == '\U{85}' || c == '\U{A0}' || c == '\U{1680}'
    || ('\U{2000}' <= c <= '\U{200A}') || c == '\U{2028}' || c == '\U{2029}'
    || c == '\U{202F}' || c == '\U{205F}' || c == '\U{3000}'
  }

  /** `s` with its leading whitespace removed. */
  function TrimStart(s: string): (r: string)
    ensures |r| <= |s| && r == s[|s| - |r|..]
    ensures r == [] || !IsSpace(r[0])
    ensures forall i :: 0 <= i < |s| - |r| ==> IsSpace(s[i])
  {
    if |s| > 0 && IsSpace(s[0]) then TrimStart(s[1..]) else s
  }

  /** `s` with its trailing whitespace removed. */
  function TrimEnd(s: string): (r: string)
    ensures |r| <= |s| && r == s[..|r|]
    ensures r == [] || !IsSpace(r[|r| - 1])
    ensures forall i :: |r| <= i < |s| ==> IsSpace(s[i])
  {
    if |s| > 0 && IsSpace(s[|s| - 1]) then TrimEnd(s[..|s| - 1]) else s
  }

  /** `r` is the slice of `s` starting at `a`, and only whitespace lies
      outside it. */
  predicate SpaceAround(s: string, r: string, a: int) {
    0 <= a && a + |r| <= |s| && r == s[a..a + |r|]
    && (forall i :: 0 <= i < a ==> IsSpace(s[i]))
    && (forall i :: a + |r| <= i < |s| ==> IsSpace(s[i]))
  }

  /** Trimming both ends keeps the slice of `s` that starts after its
      leading whitespace, with only whitespace around it. */
  lemma TrimBoth(s: string)
    ensures SpaceAround(s, TrimEnd(TrimStart(s)), |s| - |TrimStart(s)|)
  {
    var t := TrimStart(s);
    var r := TrimEnd(t);
    var a := |s| - |t|;
    assert t == s[a..] && r == t[..|r|];
    forall i | 0 <= i < |r| ensures r[i] == s[a + i] {
      assert r[i] == t[i];
    }
    assert r == s[a..a + |r|];
    assert forall i :: 0 <= i < a ==> IsSpace(s[i]);
    forall i | a + |r| <= i < |s| ensures IsSpace(s[i]) {
      var k := i - a;
      assert |r| <= k < |t| && t[k] == s[i];
    }
    assert 0 <= a && a + |r| <= |s|;
    assert SpaceAround(s, r, a);
  }

  /** Python's `str.strip()`: the part of `s` between its leading and its
      trailing whitespace. */
  function Strip(s: string): (r: string)
    ensures SpaceAround(s, r, |s| - |TrimStart(s)|)
    ensures r == [] || (!IsSpace(r[0]) && !IsSpace(r[|r| - 1]))
  {
    TrimBoth(s);
    TrimEnd(TrimStart(s))
  }

  function LowerChar(c: char): char {
    if 'A' <= c <= 'Z' then (c as int - 'A' as int + 'a' as int) as char else c
  }

  /** Python's `str.lower()` on ASCII letters: every upper-case letter
      becomes its lower-case partner, every other character stays. */
  function Lower(s: string): (r: string)
    ensures |r| == |s|
    ensures forall i :: 0 <= i < |r| ==> !('A' <= r[i] <= 'Z')
    ensures forall i :: 0 <= i < |s| && !('A' <= s[i] <= 'Z') ==> r[i] == s[i]
    ensures forall i :: 0 <= i < |s| && 'A' <= s[i] <= 'Z' ==> r[i] as int == s[i] as int + 32
  {
    seq(|s|, i requires 0 <= i < |s| => LowerChar(s[i]))
  }

  /** `x.strip().lower()`, the normal form of session names and choices. */
  function Normalize(s: string): string {
    Lower(Strip(s))
  }

  /** A string with no surrounding whitespace and no upper-case letter. */
  predicate IsNormal(s: string) {
    (s == [] || (!IsSpace(s[0]) && !IsSpace(s[|s| - 1])))
    && forall i :: 0 <= i < |s| ==> !('A' <= s[i] <= 'Z')
  }

  lemma StripOfTrimmed(s: string)
    requires s == [] || (!IsSpace(s[0]) && !IsSpace(s[|s| - 1]))
    ensures Strip(s) == s
  {
    assert TrimStart(s) == s;
    assert TrimEnd(s) == s;
  }

  lemma LowerKeepsSpace(c: char)
    ensures IsSpace(LowerChar(c)) <==> IsSpace(c)
    ensures !('A' <= LowerChar(c) <= 'Z')
    ensures LowerChar(LowerChar(c)) == LowerChar(c)
  {
  }

  /** Lowering a string with no surrounding whitespace gives a normal form. */
  lemma LowerIsNormal(t: string)
    requires t == [] || (!IsSpace(t[0]) && !IsSpace(t[|t| - 1]))
    ensures IsNormal(Lower(t))
  {
    var n := Lower(t);
    if t != [] {
      LowerKeepsSpace(t[0]);
      LowerKeepsSpace(t[|t| - 1]);
    }
    forall i | 0 <= i < |n| ensures !('A' <= n[i] <= 'Z') {
      LowerKeepsSpace(t[i]);
    }
  }

  /** Every normalised string is in normal form, and normal forms are left
      alone by normalisation, so normalising twice is normalising once. */
  lemma NormalizeIsNormal(s: string)
    ensures IsNormal(Normalize(s))
    ensures Normalize(Normalize(s)) == Normalize(s)
  {
    LowerIsNormal(Strip(s));
    NormalIsFixed(Normalize(s));
  }

  lemma NormalIsFixed(s: string)
    requires IsNormal(s)
    ensures Normalize(s) == s
  {
    StripOfTrimmed(s);
    var l := Lower(s);
    forall i | 0 <= i < |s| ensures l[i] == s[i] {
      assert !('A' <= s[i] <= 'Z');
    }
  }

  datatype Student = Student(id: string, grade: int, choices: seq<string>)

  /** `Student.__init__`: the id and grade are kept, and each choice is
      stored normalised. */
  function NewStudent(sid: string, grade: int, choices: seq<string>): (s: Student)
    ensures s.id == sid && s.grade == grade
    ensures |s.choices| == |choices|
    ensures forall i :: 0 <= i < |choices| ==> IsNormal(s.choices[i]) && s.choices[i] == Normalize(choices[i])
  {
    var r := Student(sid, grade, seq(|choices|, i requires 0 <= i < |choices| => Normalize(choices[i])));
    forall i | 0 <= i < |choices| ensures IsNormal(r.choices[i]) {
      NormalizeIsNormal(choices[i]);
    }
    r
  }

  /** Building a student from its own stored choices changes nothing. */
  lemma NewStudentIsStable(s: Student)
    requires forall i :: 0 <= i < |s.choices| ==> IsNormal(s.choices[i])
    ensures NewStudent(s.id, s.grade, s.choices) == s
  {
    var t := NewStudent(s.id, s.grade, s.choices);
    forall i | 0 <= i < |s.choices| ensures t.choices[i] == s.choices[i] {
      NormalIsFixed(s.choices[i]);
    }
  }

  /** `get_choice`: the choice at position `i`, or the empty string past the
      end of the list. */
  function GetChoice(s: Student, i: nat): (r: string)
    ensures i < |s.choices| ==> r == s.choices[i]
    ensures i >= |s.choices| ==> r == ""
  {
    if i < |s.choices| then s.choices[i] else ""
  }

  /** `list.index`, with -1 standing for the ValueError. */
  function IndexOf(xs: seq<string>, p: string): (r: int)
    ensures -1 <= r < |xs|
    ensures r == -1 <==> p !in xs
    ensures r >= 0 ==> xs[r] == p && forall j :: 0 <= j < r ==> xs[j] != p
  {
    if xs == [] then -1
    else if xs[0] == p then 0
    else
      var r := IndexOf(xs[1..], p);
      if r < 0 then -1 else r + 1
  }

  /** `get_choice_index`: the first position of session `p` among the
      choices, or -1 when it is not among them. */
  function GetChoiceIndex(s: Student, p: string): (r: int)
    ensures r == -1 <==> p !in s.choices
    ensures r >= 0 ==> r < |s.choices| && s.choices[r] == p
    ensures forall j :: 0 <= j < r ==> s.choices[j] != p
  {
    IndexOf(s.choices, p)
  }

  /** `get_choice` and `get_choice_index` undo each other: the index found
      for a choice gives that choice back, and the index found for the choice
      at position `i` is at most `i`. */
  lemma {:induction false} ChoiceIndexRoundTrip(s: Student, p: string, i: nat)
    ensures GetChoiceIndex(s, p) >= 0 ==> GetChoice(s, GetChoiceIndex(s, p) as nat) == p
    ensures i < |s.choices| ==> 0 <= GetChoiceIndex(s, GetChoice(s, i)) <= i
  {
  }
}
