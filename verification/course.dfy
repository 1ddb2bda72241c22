/**
 * Reading the course code, title and term from the "Course" anchor row: the
 * combined "CODE - Title - Term" text in column B, with the fallbacks the
 * parser tries when that text is missing or has no code.
 */
module Courses {
  import opened Text
  import opened Scanner

  datatype Course = Course(code: string, title: string, term: string)

  /** Hyphen, en dash and em dash: the separators of the combined course text. */
  const Dashes: set<char> := {'-', '\U{2013}', '\U{2014}'}

  /** `parts[k] || ""`. */
  function Nth(parts: seq<string>, k: nat): string {
    if k < |parts| then parts[k] else ""
  }

  /** `parts.slice(2)`. */
  function FromThird(parts: seq<string>): seq<string> {
    if |parts| > 2 then parts[2..] else []
  }

  /**
   * The pieces of `s.split(/\s*[-–—]\s*\/)` on a trimmed cell: the text between
   * dashes, with the whitespace next to each dash removed.
   */
  function DashPieces(s: string): (ps: seq<string>)
    ensures |ps| >= 1
    ensures forall k :: 0 <= k < |ps| ==> IsTrimmed(ps[k]) && NoneOf(ps[k], Dashes)
  {
    var raw := SplitOn(s, Dashes);
    var ps := TrimAll(raw);
    forall k | 0 <= k < |ps|
      ensures NoneOf(ps[k], Dashes)
    {
      TrimNoneOf(raw[k], Dashes);
    }
    ps
  }

  /** The combined "CODE - Title - Term" text split into its three fields; extra pieces rejoin the term. */
  function SplitCombined(s: string): (c: Course)
    ensures IsTrimmed(c.code) && IsTrimmed(c.title) && IsTrimmed(c.term)
    ensures NoneOf(c.code, Dashes) && NoneOf(c.title, Dashes)
  {
    var ps := DashPieces(s);
    var code := Nth(ps, 0);
    var title := Nth(ps, 1);
    assert IsTrimmed(code) && NoneOf(code, Dashes) by {
      assert code == ps[0];
    }
    assert IsTrimmed(title) && NoneOf(title, Dashes) by {
      if |ps| > 1 {
        assert title == ps[1];
      }
    }
    Course(code, title, Trim(Join(FromThird(ps), " - ")))
  }

  /** The comma fallback on the same cell: `b.split(",")`, each piece trimmed, the rest rejoined with " - ". */
  function SplitCommas(s: string): (c: Course)
    ensures IsTrimmed(c.code) && IsTrimmed(c.title)
    ensures NoneOf(c.code, {','}) && NoneOf(c.title, {','})
    ensures ',' !in s ==> c == Course(Trim(s), "", "")
  {
    CommaPiecesClean(s);
    FieldsOf(TrimAll(SplitOn(s, {','})))
  }

  /** Code, title and the rest rejoined with " - ", from a list of pieces. */
  function FieldsOf(ps: seq<string>): Course {
    Course(Nth(ps, 0), Nth(ps, 1), Join(FromThird(ps), " - "))
  }

  /** The trimmed comma pieces are trimmed and comma-free; without a comma there is one piece. */
  lemma CommaPiecesClean(s: string)
    ensures forall k :: 0 <= k < |TrimAll(SplitOn(s, {','}))| ==>
      IsTrimmed(TrimAll(SplitOn(s, {','}))[k]) && NoneOf(TrimAll(SplitOn(s, {','}))[k], {','})
    ensures ',' !in s ==> TrimAll(SplitOn(s, {','})) == [Trim(s)]
  {
    var raw := SplitOn(s, {','});
    forall k | 0 <= k < |raw|
      ensures NoneOf(Trim(raw[k]), {','})
    {
      TrimNoneOf(raw[k], {','});
    }
    if ',' !in s {
      SplitWhole(s, {','});
    }
  }

  /** The text after the first comma of column A, trimmed; empty when there is no comma. */
  function AfterComma(a: string): string {
    if ',' in a then
      var parts := SplitOn(a, {','});
      Trim(Join(parts[1..], ","))
    else ""
  }

  /**
   * The course cascade on the trimmed cells A to D of the anchor row:
   * the combined text of column B (or its comma fallback when it yields no code),
   * else columns B, C and D as code, title and term, else the text after a comma in column A.
   */
  function CourseFromCells(a: string, b: string, c: string, d: string): (r: Course)
    ensures b != "" && ',' !in b ==> r == SplitCombined(b)
    ensures b != "" && SplitCombined(b).code != "" ==> r == SplitCombined(b)
    ensures b != "" && SplitCombined(b).code == "" && ',' in b ==> r == SplitCommas(b)
    ensures b == "" && (c != "" || d != "") ==> r == Course("", c, d)
    ensures b == "" && c == "" && d == "" && ',' !in a ==> r == Course("", "", "")
  {
    if b != "" then
      var combined := SplitCombined(b);
      if combined.code == "" && ',' in b then SplitCommas(b) else combined
    else if c != "" || d != "" then
      Course(b, c, d)
    else
      var rest := AfterComma(a);
      if rest != "" then SplitCombined(rest) else Course("", "", "")
  }

  /** "CODE - Title - Term" splits at its two dashes. */
  lemma CombinedSplitOn(code: string, title: string, term: string)
    requires NoneOf(code, Dashes) && NoneOf(title, Dashes) && NoneOf(term, Dashes)
    ensures SplitOn(code + " - " + title + " - " + term, Dashes) == [code + " ", " " + title + " ", " " + term]
  {
    var x := code + " ";
    var y := " " + title + " ";
    var z := " " + term;
    assert NoneOf(" ", Dashes);
    assert NoneOf(x, Dashes) by {
      NoneOfAppend(code, " ", Dashes);
    }
    assert NoneOf(y, Dashes) by {
      NoneOfAppend(" ", title, Dashes);
      NoneOfAppend(" " + title, " ", Dashes);
    }
    assert NoneOf(z, Dashes) by {
      NoneOfAppend(" ", term, Dashes);
    }
    assert SplitOn(y + ['-'] + z, Dashes) == [y, z] by {
      SplitAfterPiece(y, '-', z, Dashes);
      SplitWhole(z, Dashes);
    }
    assert " - " == " " + ['-'] + " ";
    RegroupSeparators(code, title, term, " - ", " ", '-', " ");
    SplitAfterPiece(x, '-', y + ['-'] + z, Dashes);
  }

  /** `a sep b sep c` regrouped around the middle character `d` of each separator. */
  lemma RegroupSeparators<T>(a: seq<T>, b: seq<T>, c: seq<T>, sep: seq<T>, l: seq<T>, d: T, r: seq<T>)
    requires sep == l + [d] + r
    ensures a + sep + b + sep + c == (a + l) + [d] + ((r + b + l) + [d] + (r + c))
  {
  }

  /** `a sep b sep c` regrouped around the first character `d` of each separator. */
  lemma RegroupAfter<T>(a: seq<T>, b: seq<T>, c: seq<T>, d: T, r: seq<T>)
    ensures a + ([d] + r) + b + ([d] + r) + c == a + [d] + ((r + b) + [d] + (r + c))
  {
  }

  /** The single spaces around the dashes trim away. */
  lemma SpacedFieldsTrim(code: string, title: string, term: string)
    requires IsTrimmed(code) && IsTrimmed(title) && IsTrimmed(term)
    ensures Trim(code + " ") == code && Trim(" " + title + " ") == title && Trim(" " + term) == term
  {
    assert AllSpace(" ");
    TrimPadded([], code, " ");
    assert [] + code + " " == code + " ";
    TrimPadded(" ", title, " ");
    TrimPadded(" ", term, []);
    assert " " + term + [] == " " + term;
  }

  /** The pieces of "CODE - Title - Term" are the three fields. */
  lemma CombinedPieces(code: string, title: string, term: string)
    requires IsTrimmed(code) && NoneOf(code, Dashes)
    requires IsTrimmed(title) && NoneOf(title, Dashes)
    requires IsTrimmed(term) && NoneOf(term, Dashes)
    ensures DashPieces(code + " - " + title + " - " + term) == [code, title, term]
  {
    CombinedSplitOn(code, title, term);
    SpacedFieldsTrim(code, title, term);
    TrimAllThree(code + " ", " " + title + " ", " " + term);
  }

  /** Comma-free fields give a comma-free combined text. */
  lemma CombinedHasNoComma(code: string, title: string, term: string)
    requires NoneOf(code, {','}) && NoneOf(title, {','}) && NoneOf(term, {','})
    ensures NoneOf(code + " - " + title + " - " + term, {','})
  {
    assert NoneOf(" - ", {','});
    NoneOfAppend(code, " - ", {','});
    NoneOfAppend(code + " - ", title, {','});
    NoneOfAppend(code + " - " + title, " - ", {','});
    NoneOfAppend(code + " - " + title + " - ", term, {','});
  }

  /** A single third piece is the term as it stands. */
  lemma ThirdPieceIsTerm(code: string, title: string, term: string)
    requires IsTrimmed(term)
    ensures Trim(Join(FromThird([code, title, term]), " - ")) == term
  {
    assert FromThird([code, title, term]) == [term];
    assert Join([term], " - ") == term;
    TrimPadded([], term, []);
    assert [] + term + [] == term;
  }

  /** Splitting "CODE - Title - Term" gives back the three fields. */
  lemma CombinedSplit(code: string, title: string, term: string)
    requires IsTrimmed(code) && NoneOf(code, Dashes)
    requires IsTrimmed(title) && NoneOf(title, Dashes)
    requires IsTrimmed(term) && NoneOf(term, Dashes)
    ensures SplitCombined(code + " - " + title + " - " + term) == Course(code, title, term)
  {
    var ps := DashPieces(code + " - " + title + " - " + term);
    assert ps == [code, title, term] by {
      CombinedPieces(code, title, term);
    }
    assert Trim(Join(FromThird(ps), " - ")) == term by {
      ThirdPieceIsTerm(code, title, term);
    }
    assert Nth(ps, 0) == code && Nth(ps, 1) == title;
  }

  /** The usual export: "CODE - Title - Term" in column B is read back field for field. */
  lemma CombinedRoundTrip(a: string, code: string, title: string, term: string, c: string, d: string)
    requires code != "" && IsTrimmed(code) && NoneOf(code, Dashes) && NoneOf(code, {','})
    requires IsTrimmed(title) && NoneOf(title, Dashes) && NoneOf(title, {','})
    requires IsTrimmed(term) && NoneOf(term, Dashes) && NoneOf(term, {','})
    ensures CourseFromCells(a, code + " - " + title + " - " + term, c, d) == Course(code, title, term)
  {
    var b := code + " - " + title + " - " + term;
    CombinedHasNoComma(code, title, term);
    assert ',' !in b;
    CombinedSplit(code, title, term);
  }

  /** "CODE, Title, Term" splits at its two commas. */
  lemma CommaSplitOn(code: string, title: string, term: string)
    requires NoneOf(code, {','}) && NoneOf(title, {','}) && NoneOf(term, {','})
    ensures SplitOn(code + ", " + title + ", " + term, {','}) == [code, " " + title, " " + term]
  {
    var y := " " + title;
    var z := " " + term;
    SpacedNoComma(title);
    SpacedNoComma(term);
    CommaPieces(y, z);
    CommaText(code, title, term);
    SplitAfterPiece(code, ',', y + [','] + z, {','});
    assert [code] + [y, z] == [code, y, z];
  }

  lemma SpacedNoComma(t: string)
    requires NoneOf(t, {','})
    ensures NoneOf(" " + t, {','})
  {
    assert NoneOf(" ", {','});
    NoneOfAppend(" ", t, {','});
  }

  lemma CommaPieces(y: string, z: string)
    requires NoneOf(y, {','}) && NoneOf(z, {','})
    ensures SplitOn(y + [','] + z, {','}) == [y, z]
  {
    SplitAfterPiece(y, ',', z, {','});
    SplitWhole(z, {','});
  }

  lemma CommaText(code: string, title: string, term: string)
    ensures code + ", " + title + ", " + term == code + [','] + ((" " + title) + [','] + (" " + term))
  {
    assert ", " == [','] + " ";
    RegroupAfter(code, title, term, ',', " ");
  }

  /** The comma fallback reads "CODE, Title, Term" back field for field. */
  lemma CommaRoundTrip(code: string, title: string, term: string)
    requires IsTrimmed(code) && NoneOf(code, {','})
    requires IsTrimmed(title) && NoneOf(title, {','})
    requires IsTrimmed(term) && NoneOf(term, {','})
    ensures SplitCommas(code + ", " + title + ", " + term) == Course(code, title, term)
  {
    CommaSplitOn(code, title, term);
    TrimAllThree(code, " " + title, " " + term);
    TrimmedFixed(code);
    SpaceThenTrimmed(title);
    SpaceThenTrimmed(term);
    FieldsOfThree(code, title, term);
  }

  lemma FieldsOfThree(code: string, title: string, term: string)
    ensures FieldsOf([code, title, term]) == Course(code, title, term)
  {
    assert FromThird([code, title, term]) == [term];
  }

  lemma FieldsOfTwo(code: string, title: string)
    ensures FieldsOf([code, title]) == Course(code, title, "")
  {
    assert FromThird([code, title]) == [];
  }

  lemma TrimAllThree(x: string, y: string, z: string)
    ensures TrimAll([x, y, z]) == [Trim(x), Trim(y), Trim(z)]
  {
    var r := TrimAll([x, y, z]);
    Three(r);
  }

  lemma TrimAllTwo(x: string, y: string)
    ensures TrimAll([x, y]) == [Trim(x), Trim(y)]
  {
    var r := TrimAll([x, y]);
    Two(r);
  }

  lemma SpaceThenTrimmed(t: string)
    requires IsTrimmed(t)
    ensures Trim(" " + t) == t
  {
    assert AllSpace(" ");
    TrimAfterSpaces(" ", t);
  }

  /** A combined text that opens with a dash has no code, so a comma in it switches to the comma fallback. */
  lemma LeadingDashFallsBack(a: string, b: string, c: string, d: string)
    requires b != [] && b[0] in Dashes && ',' in b
    ensures SplitCombined(b).code == ""
    ensures CourseFromCells(a, b, c, d) == SplitCommas(b)
  {
    assert IndexOfAny(b, Dashes) == 0;
    assert SplitOn(b, Dashes)[0] == "";
    assert DashPieces(b)[0] == Trim("");
  }

  /** Two comma-free fields joined by ", " read back as code and title, with no term. */
  lemma CommaPair(code: string, title: string)
    requires IsTrimmed(code) && NoneOf(code, {','})
    requires IsTrimmed(title) && NoneOf(title, {','})
    ensures SplitCommas(code + ", " + title) == Course(code, title, "")
  {
    CommaSplitTwo(code, title);
    TrimAllTwo(code, " " + title);
    TrimmedFixed(code);
    SpaceThenTrimmed(title);
    FieldsOfTwo(code, title);
  }

  lemma CommaSplitTwo(code: string, title: string)
    requires NoneOf(code, {','}) && NoneOf(title, {','})
    ensures SplitOn(code + ", " + title, {','}) == [code, " " + title]
  {
    var z := " " + title;
    SpacedNoComma(title);
    CommaThenSpace(code, title);
    SplitAfterPiece(code, ',', z, {','});
    SplitWhole(z, {','});
  }

  lemma CommaThenSpace(x: string, y: string)
    ensures x + ", " + y == x + [','] + (" " + y)
  {
    assert ", " == [','] + " ";
  }

  /** "- Title, Term", with no code before the dash, is read by the comma fallback: the dash stays in the code. */
  lemma DashTitleCommaTerm(a: string, title: string, term: string, c: string, d: string)
    requires title != "" && IsTrimmed(title) && NoneOf(title, {','})
    requires IsTrimmed(term) && NoneOf(term, {','})
    ensures CourseFromCells(a, "- " + title + ", " + term, c, d) == Course("- " + title, term, "")
  {
    var code := "- " + title;
    var b := code + ", " + term;
    DashCommaText(title, term);
    LeadingDashFallsBack(a, b, c, d);
    CommaPair(code, term);
  }

  lemma DashCommaText(title: string, term: string)
    requires title != "" && IsTrimmed(title) && NoneOf(title, {','})
    ensures var b := "- " + title + ", " + term; b != [] && b[0] == '-' && ',' in b
    ensures IsTrimmed("- " + title) && NoneOf("- " + title, {','})
  {
    assert NoneOf("- ", {','});
    NoneOfAppend("- ", title, {','});
    var code := "- " + title;
    assert code[|code| - 1] == title[|title| - 1];
    var b := code + ", " + term;
    assert b[|code|] == ',';
  }

  /** The "Course" label cannot contain a comma, so the column-A fallback never applies to an anchor row. */
  lemma CourseAnchorHasNoComma(a: string)
    requires Labels(Norm(a), CourseLabel)
    ensures ',' !in a
    ensures AfterComma(a) == ""
  {
    AnchorTextHasNoComma(a);
    NoCommaNothingAfter(a);
  }

  lemma AnchorTextHasNoComma(a: string)
    requires Labels(Norm(a), CourseLabel)
    ensures ',' !in a
  {
    CourseLabelHasNoComma(Norm(a));
    NormKeepsComma(a);
  }

  lemma NoCommaNothingAfter(a: string)
    requires ',' !in a
    ensures AfterComma(a) == ""
  {
  }

  lemma CourseLabelHasNoComma(n: string)
    requires Labels(n, CourseLabel)
    ensures ',' !in n
  {
    assert n == "course" || n == "course:";
  }

  lemma NormKeepsComma(s: string)
    ensures ',' in s ==> ',' in Norm(s)
  {
    NormKeepsImplication(s, ',');
  }

  lemma NormKeepsImplication(s: string, c: char)
    requires !IsSpace(c) && !('A' <= c <= 'Z')
    ensures c in s ==> c in Norm(s)
  {
    if c in s {
      NormKeeps(s, c);
    }
  }

  /** With column B empty, the course is read from columns C and D, and the code stays empty. */
  lemma EmptyColumnB(a: string, c: string, d: string)
    requires Labels(Norm(a), CourseLabel)
    ensures CourseFromCells(a, "", c, d) == Course("", c, d)
  {
    CourseAnchorHasNoComma(a);
  }

  /**
   * The comma fallback on any comma-joined list of comma-free pieces: every
   * piece is trimmed, the first two become code and title, and all the later
   * ones are rejoined with " - " into the term.
   */
  lemma SplitCommasJoin(fs: seq<string>)
    requires |fs| >= 1
    requires forall k :: 0 <= k < |fs| ==> NoneOf(fs[k], {','})
    ensures SplitCommas(Join(fs, ",")) ==
      Course(Trim(fs[0]), Nth(TrimAll(fs), 1), Join(FromThird(TrimAll(fs)), " - "))
  {
    Separators();
    SplitJoined("", fs, "", ',', "", {','});
    assert "" + Join(fs, ",") == Join(fs, ",");
    PlainJoinedPieces(fs);
  }

  /** Joining trimmed, comma-free fields with ", " and splitting them again gives the fields back. */
  lemma CommaJoinRoundTrip(fs: seq<string>)
    requires |fs| >= 1
    requires forall k :: 0 <= k < |fs| ==> IsTrimmed(fs[k]) && NoneOf(fs[k], {','})
    ensures SplitCommas(Join(fs, ", ")) == Course(fs[0], Nth(fs, 1), Join(FromThird(fs), " - "))
  {
    assert AllSpace(" ") && NoneOf(" ", {','});
    Separators();
    SplitJoined("", fs, "", ',', " ", {','});
    TrimJoinedPieces("", fs, "", " ");
    assert "" + Join(fs, ", ") == Join(fs, ", ");
  }

  /** Joining trimmed, dash-free fields with " - " and splitting them again gives the fields back. */
  lemma DashJoinRoundTrip(fs: seq<string>)
    requires |fs| >= 1
    requires forall k :: 0 <= k < |fs| ==> IsTrimmed(fs[k]) && NoneOf(fs[k], Dashes)
    ensures SplitCombined(Join(fs, " - ")) ==
      Course(fs[0], Nth(fs, 1), Trim(Join(FromThird(fs), " - ")))
  {
    assert AllSpace(" ") && NoneOf(" ", Dashes);
    Separators();
    SplitJoined("", fs, " ", '-', " ", Dashes);
    TrimJoinedPieces("", fs, " ", " ");
    assert "" + Join(fs, " - ") == Join(fs, " - ");
  }

  /** The separators of the joins above, as a separator character between two sides. */
  lemma Separators()
    ensures "" + [','] + "" == ","
    ensures "" + [','] + " " == ", "
    ensures " " + ['-'] + " " == " - "
  {
  }

  /** A term that itself holds a dash is split at it and rejoined with " - ". */
  lemma DashedTermRejoined(code: string, title: string, t1: string, t2: string)
    requires code != "" && title != "" && t1 != "" && t2 != ""
    requires IsTrimmed(code) && IsTrimmed(title) && IsTrimmed(t1) && IsTrimmed(t2)
    requires NoneOf(code, Dashes) && NoneOf(title, Dashes) && NoneOf(t1, Dashes) && NoneOf(t2, Dashes)
    ensures SplitCombined(code + " - " + title + " - " + t1 + " - " + t2) ==
      Course(code, title, t1 + " - " + t2)
  {
    var fs := [code, title, t1, t2];
    JoinFour(code, title, t1, t2);
    DashJoinRoundTrip(fs);
    assert FromThird(fs) == [t1, t2];
    SpacedDashTrimmed(t1, t2);
  }

  lemma JoinFour(a: string, b: string, c: string, d: string)
    ensures Join([a, b, c, d], " - ") == a + " - " + b + " - " + c + " - " + d
    ensures Join([c, d], " - ") == c + " - " + d
  {
    var sep := " - ";
    assert [c, d][1..] == [d];
    assert [b, c, d][1..] == [c, d];
    assert [a, b, c, d][1..] == [b, c, d];
    assert Join([d], sep) == d;
    assert Join([c, d], sep) == c + sep + d;
    assert Join([b, c, d], sep) == b + sep + (c + sep + d);
    assert Join([a, b, c, d], sep) == a + sep + (b + sep + (c + sep + d));
  }

  /** Two non-empty trimmed texts around " - " make a trimmed text. */
  lemma SpacedDashTrimmed(t1: string, t2: string)
    requires t1 != "" && t2 != "" && IsTrimmed(t1) && IsTrimmed(t2)
    ensures Trim(t1 + " - " + t2) == t1 + " - " + t2
  {
    var term := t1 + " - " + t2;
    assert term[0] == t1[0] && term[|term| - 1] == t2[|t2| - 1];
    TrimmedFixed(term);
  }

  lemma Two<T>(s: seq<T>)
    requires |s| == 2
    ensures s == [s[0], s[1]]
  {
  }

  lemma Three<T>(s: seq<T>)
    requires |s| == 3
    ensures s == [s[0], s[1], s[2]]
  {
  }
}
