/**
 * The family member's patient list: the initials shown on each tile, the
 * search over name and e-mail, and when the "no results" notice appears.
 */
module FamilyPatients {
  import opened Wrappers
  import opened JsString
  import opened Lists
  import opened Domain

  /** What `getInitials` shows for a missing or empty name. */
  const NoInitials: string := "—"

  function NonEmpty(w: string): bool { |w| > 0 }

  /** `name.split(" ").filter(Boolean)`: the words of a name, without the empty pieces runs of spaces leave. */
  function Words(name: string): (ws: seq<string>)
    ensures forall i :: 0 <= i < |ws| ==> |ws[i]| > 0 && ' ' !in ws[i]
    ensures IsSubsequence(ws, Split(name, ' '))
  {
    FilterMembers(Split(name, ' '), NonEmpty);
    FilterIsSubsequence(Split(name, ' '), NonEmpty);
    SplitPiecesNoSep(name, ' ');
    assert forall i :: 0 <= i < |Filter(Split(name, ' '), NonEmpty)| ==>
      Filter(Split(name, ' '), NonEmpty)[i] in Filter(Split(name, ' '), NonEmpty);
    Filter(Split(name, ' '), NonEmpty)
  }

  /** `s => s[0]?.toUpperCase()` on a word. */
  function InitialOf(w: string): string {
    if |w| > 0 then [UpperChar(w[0])] else ""
  }

  function Initials(ws: seq<string>): seq<string> {
    seq(|ws|, i requires 0 <= i < |ws| => InitialOf(ws[i]))
  }

  /** Joining one-character strings with no separator strings their characters together. */
  lemma {:induction false} JoinSingles(parts: seq<string>)
    requires forall i :: 0 <= i < |parts| ==> |parts[i]| == 1
    ensures |Join(parts, "")| == |parts|
    ensures forall i :: 0 <= i < |parts| ==> Join(parts, "")[i] == parts[i][0]
    decreases |parts|
  {
    if |parts| > 1 {
      JoinSingles(parts[1..]);
      assert Join(parts, "") == parts[0] + Join(parts[1..], "");
    }
  }

  function Min(a: int, b: int): int { if a < b then a else b }

  /**
   * `getInitials`: "—" for a missing or empty name; otherwise the upper-cased
   * first letters of the first two words, so a name made of spaces only has
   * no initials at all.
   */
  function GetInitials(name: Option<string>): (r: string)
    ensures name.None? || name == Some("") ==> r == NoInitials
    ensures name.Some? && name.value != "" ==>
              && |r| == Min(2, |Words(name.value)|)
              && forall i :: 0 <= i < |r| ==> r[i] == UpperChar(Words(name.value)[i][0])
  {
    match name
    case None => NoInitials
    case Some(n) =>
      if n == "" then NoInitials
      else
        var ws := Words(n);
        var firstTwo := ws[..Min(2, |ws|)];
        JoinSingles(Initials(firstTwo));
        Join(Initials(firstTwo), "")
  }

  /** A nonempty name of spaces only shows empty initials, not the dash. */
  lemma {:induction false} SpacesOnlyName(n: nat)
    requires n > 0
    ensures GetInitials(Some(seq(n, _ => ' '))) == ""
  {
    var name := seq(n, _ => ' ');
    assert name[0] == ' ';
    SplitSpaces(name);
    FilterNone(Split(name, ' '));
  }

  lemma {:induction false} SplitSpaces(s: string)
    requires forall i :: 0 <= i < |s| ==> s[i] == ' '
    ensures forall k :: 0 <= k < |Split(s, ' ')| ==> Split(s, ' ')[k] == ""
    decreases |s|
  {
    if |s| > 0 {
      SplitSpaces(s[1..]);
    }
  }

  lemma {:induction false} FilterNone(s: seq<string>)
    requires forall i :: 0 <= i < |s| ==> s[i] == ""
    ensures Filter(s, NonEmpty) == []
    decreases |s|
  {
    if |s| > 0 {
      FilterNone(s[1..]);
    }
  }

  /** `matchesQuery`: the lower-cased text contains the trimmed, lower-cased query. */
  predicate MatchesQuery(text: string, q: string) {
    Includes(ToLower(text), ToLower(Trim(q)))
  }

  /** The query matches exactly when it occurs somewhere in the text, ignoring the case of both. */
  lemma MatchesQuerySpec(text: string, q: string)
    ensures MatchesQuery(text, q) <==> exists i :: OccursAt(ToLower(text), ToLower(Trim(q)), i)
    ensures MatchesQuery(ToLower(text), q) <==> MatchesQuery(text, q)
    ensures MatchesQuery(text, ToLower(q)) <==> MatchesQuery(text, q)
  {
    IncludesAt(ToLower(text), ToLower(Trim(q)));
    ToLowerIdempotent(text);
    TrimLower(q);
  }

  /** Lower-casing keeps the spaces where they are, so it commutes with trimming. */
  lemma TrimLower(q: string)
    ensures ToLower(Trim(ToLower(q))) == ToLower(Trim(q))
  {
    TrimStartLower(q);
    TrimEndLower(TrimStart(q));
    assert TrimStart(ToLower(q)) == ToLower(TrimStart(q));
    assert Trim(ToLower(q)) == ToLower(Trim(q));
    ToLowerIdempotent(Trim(q));
  }

  lemma {:induction false} TrimStartLower(s: string)
    ensures TrimStart(ToLower(s)) == ToLower(TrimStart(s))
    decreases |s|
  {
    if |s| > 0 {
      assert ToLower(s)[1..] == ToLower(s[1..]);
      TrimStartLower(s[1..]);
    }
  }

  lemma {:induction false} TrimEndLower(s: string)
    ensures TrimEnd(ToLower(s)) == ToLower(TrimEnd(s))
    decreases |s|
  {
    if |s| > 0 {
      assert ToLower(s)[..|s| - 1] == ToLower(s[..|s| - 1]);
      TrimEndLower(s[..|s| - 1]);
    }
  }

  /** A blank query matches every text. */
  lemma BlankQueryMatches(text: string, q: string)
    requires Trim(q) == ""
    ensures MatchesQuery(text, q)
  {
    IncludesEmpty(ToLower(text));
  }

  /** The patient's name or e-mail matches; only defined for a patient with a name. */
  predicate PatientMatchesQuery(p: Patient, q: string)
    requires p.user.fullname.Some?
  {
    MatchesQuery(p.user.fullname.value, q) || MatchesQuery(p.user.email, q)
  }

  predicate Named(p: Patient) {
    p.user.fullname.Some?
  }

  predicate Shown(q: string, p: Patient) {
    Named(p) && PatientMatchesQuery(p, q)
  }

  function ShownBy(q: string): Patient -> bool {
    p => Shown(q, p)
  }

  /**
   * `filtered`: the family's patients (none without a family) whose name or
   * e-mail matches, in order. The name is lower-cased first, so a patient
   * without a name makes the filter throw: `None`.
   */
  function Filtered(family: Option<Family>, q: string): (r: Option<seq<Patient>>)
    ensures family.None? ==> r == Some([])
    ensures family.Some? ==> (r.None? <==> exists i :: 0 <= i < |family.value.patients| && !Named(family.value.patients[i]))
    ensures family.Some? && r.Some? ==>
              && IsSubsequence(r.value, family.value.patients)
              && forall p :: p in r.value <==> p in family.value.patients && PatientMatchesQuery(p, q)
  {
    match family
    case None => Some([])
    case Some(f) =>
      if forall i :: 0 <= i < |f.patients| ==> Named(f.patients[i]) then
        FilterIsSubsequence(f.patients, ShownBy(q));
        FilterMembers(f.patients, ShownBy(q));
        Some(Filter(f.patients, ShownBy(q)))
      else None
  }

  /** With a blank query every patient of the family is listed, in order. */
  lemma BlankQueryShowsAll(f: Family, q: string)
    requires Trim(q) == ""
    requires forall i :: 0 <= i < |f.patients| ==> Named(f.patients[i])
    ensures Filtered(Some(f), q) == Some(f.patients)
  {
    forall i | 0 <= i < |f.patients| ensures ShownBy(q)(f.patients[i]) {
      BlankQueryMatches(f.patients[i].user.fullname.value, q);
    }
    FilterAll(f.patients, ShownBy(q));
  }

  /** The error alert is shown: the message is truthy, that is present and not empty. */
  predicate ErrorShown(error: Option<string>) {
    error.Some? && error.value != ""
  }

  /** The "no patients linked" notice: no error, not loading, and no patient in the family. */
  predicate NoPatients(error: Option<string>, loading: bool, family: Option<Family>) {
    !ErrorShown(error) && !loading && (family.None? || |family.value.patients| == 0)
  }

  /**
   * The "no results" notice: no error, not loading, the family has patients,
   * and none is listed. It never appears beside the error alert, the spinner
   * or the "no patients linked" notice.
   */
  function NoResults(error: Option<string>, loading: bool, family: Option<Family>, filteredCount: nat): (r: bool)
    ensures r ==> !ErrorShown(error) && !loading && filteredCount == 0
    ensures r ==> !NoPatients(error, loading, family)
    ensures !ErrorShown(error) && !loading && filteredCount == 0 ==> (r <==> !NoPatients(error, loading, family))
  {
    !ErrorShown(error) && !loading && family.Some? && |family.value.patients| > 0 && filteredCount == 0
  }

  /** A family of named patients none of whom matches the query shows the notice once loaded without error. */
  lemma NoMatchShowsNotice(f: Family, q: string, error: Option<string>)
    requires |f.patients| > 0 && !ErrorShown(error)
    requires forall i :: 0 <= i < |f.patients| ==> Named(f.patients[i])
    requires forall i :: 0 <= i < |f.patients| ==> !Shown(q, f.patients[i])
    ensures NoResults(error, false, Some(f), |Filtered(Some(f), q).value|)
  {
    FilterRejectsAll(f.patients, ShownBy(q));
  }

  /** A blank query never shows the notice when every patient has a name. */
  lemma BlankQueryNoNotice(f: Family, q: string, error: Option<string>)
    requires Trim(q) == ""
    requires forall i :: 0 <= i < |f.patients| ==> Named(f.patients[i])
    ensures !NoResults(error, false, Some(f), |Filtered(Some(f), q).value|)
  {
    BlankQueryShowsAll(f, q);
  }
}
