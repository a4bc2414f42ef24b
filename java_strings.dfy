/**
  The two pieces of java.lang.String the service relies on:
  `path.split("/")` and `compareToIgnoreCase`.
*/
module JavaStrings {

  /** Joins segments with "/" (the inverse of splitting at every "/"). */
  function Join(parts: seq<string>): (r: string)
    ensures parts != [] ==> |parts[0]| <= |r| && r[..|parts[0]|] == parts[0]
    ensures |parts| >= 2 ==> |parts[0]| < |r| && r[|parts[0]|] == '/'
    decreases |parts|
  {
    if parts == [] then ""
    else if |parts| == 1 then parts[0]
    else parts[0] + "/" + Join(parts[1..])
  }

  /** All fields between the "/" characters of s, empty ones included. */
  function Fields(s: string): (r: seq<string>)
    ensures |r| >= 1
    ensures forall i :: 0 <= i < |r| ==> '/' !in r[i]
    ensures Join(r) == s
    decreases |s|
  {
    if s == [] then [""]
    else
      var rest := Fields(s[1..]);
      if s[0] == '/' then
        assert [""] + rest == [""] + rest;
        [""] + rest
      else
        var r := [[s[0]] + rest[0]] + rest[1..];
        assert r[1..] == rest[1..];
        assert s == [s[0]] + s[1..];
        r
  }

  /** Removes the empty strings at the end of a list of fields. */
  function DropTrailingEmpty(fields: seq<string>): (r: seq<string>)
    ensures |r| <= |fields| && r == fields[..|r|]
    ensures r == [] || r[|r| - 1] != ""
    ensures forall i :: |r| <= i < |fields| ==> fields[i] == ""
    decreases |fields|
  {
    if fields != [] && fields[|fields| - 1] == "" then DropTrailingEmpty(fields[..|fields| - 1])
    else fields
  }

  /**
    Java's `s.split("/")`: when s holds no "/" the result is [s] (so "" gives [""]);
    otherwise every field, with the trailing empty fields removed.
  */
  function Split(s: string): (r: seq<string>)
    ensures forall i :: 0 <= i < |r| ==> '/' !in r[i]
    ensures r == [] || r[|r| - 1] != "" || r == [""]
  {
    if '/' !in s then [s] else DropTrailingEmpty(Fields(s))
  }

  lemma {:induction false} FieldsOfJoin(parts: seq<string>)
    requires parts != []
    requires forall i :: 0 <= i < |parts| ==> '/' !in parts[i]
    ensures Fields(Join(parts)) == parts
    decreases |parts|
  {
    if |parts| == 1 {
      FieldsOfSegment(parts[0]);
    } else {
      FieldsOfJoin(parts[1..]);
      FieldsAfterSegment(parts[0], Join(parts[1..]));
      assert parts == [parts[0]] + parts[1..];
    }
  }

  lemma {:induction false} FieldsOfSegment(p: string)
    requires '/' !in p
    ensures Fields(p) == [p]
    decreases |p|
  {
    if p != [] {
      FieldsOfSegment(p[1..]);
    }
  }

  lemma {:induction false} FieldsAfterSegment(p: string, rest: string)
    requires '/' !in p
    ensures Fields(p + "/" + rest) == [p] + Fields(rest)
    decreases |p|
  {
    if p == [] {
      assert p + "/" + rest == "/" + rest;
      assert ("/" + rest)[1..] == rest;
    } else {
      var s := p + "/" + rest;
      assert s[0] == p[0] && s[1..] == p[1..] + "/" + rest;
      FieldsAfterSegment(p[1..], rest);
      var r := Fields(s[1..]);
      assert r == [p[1..]] + Fields(rest);
      assert r[0] == p[1..] && r[1..] == Fields(rest);
      assert [p[0]] + p[1..] == p;
    }
  }

  /** Splitting undoes joining, for segments free of "/" whose last one is not empty (or that are one segment). */
  lemma SplitJoin(parts: seq<string>)
    requires parts != []
    requires forall i :: 0 <= i < |parts| ==> '/' !in parts[i]
    requires |parts| == 1 || parts[|parts| - 1] != ""
    ensures Split(Join(parts)) == parts
  {
    if |parts| == 1 {
      assert Join(parts) == parts[0];
    } else {
      assert Join(parts) == parts[0] + "/" + Join(parts[1..]);
      assert '/' in Join(parts) by {
        assert Join(parts)[|parts[0]|] == '/';
      }
      FieldsOfJoin(parts);
    }
  }

  /** A "/" at the end adds one empty field. */
  lemma {:induction false} FieldsAppendSlash(s: string)
    ensures Fields(s + "/") == Fields(s) + [""]
    decreases |s|
  {
    var t := s + "/";
    if s == [] {
      assert t == "/" && t[1..] == [];
    } else {
      assert t[0] == s[0] && t[1..] == s[1..] + "/";
      FieldsAppendSlash(s[1..]);
      var rest := Fields(s[1..]);
      var rest' := Fields(t[1..]);
      assert rest' == rest + [""];
      if s[0] == '/' {
        assert Fields(t) == [""] + rest';
        assert Fields(s) == [""] + rest;
        ConcatAssoc([""], rest, [""]);
      } else {
        assert rest'[0] == rest[0] && rest'[1..] == rest[1..] + [""];
        assert Fields(t) == [[s[0]] + rest[0]] + (rest[1..] + [""]);
        assert Fields(s) == [[s[0]] + rest[0]] + rest[1..];
        ConcatAssoc([[s[0]] + rest[0]], rest[1..], [""]);
      }
    }
  }

  /** Regrouping a concatenation, for any element type. */
  lemma ConcatAssoc<T>(a: seq<T>, b: seq<T>, c: seq<T>)
    ensures a + (b + c) == (a + b) + c
  {
  }

  /** split drops trailing empty strings, so a "/" at the end of a non-empty path changes nothing. */
  lemma SplitTrailingSlash(s: string)
    requires s != ""
    ensures Split(s + "/") == Split(s)
  {
    assert '/' in s + "/" by {
      assert (s + "/")[|s|] == '/';
    }
    FieldsAppendSlash(s);
    var f := Fields(s);
    assert (f + [""])[..|f|] == f;
    if '/' !in s {
      FieldsOfSegment(s);
    }
  }

  /** A path splits into no segments exactly when it is non-empty and made of "/" only. */
  lemma SplitEmpty(s: string)
    ensures Split(s) == [] <==> (s != "" && forall i :: 0 <= i < |s| ==> s[i] == '/')
  {
    if '/' !in s {
      if s != "" {
        assert s[0] in s;
      }
    } else {
      var f := Fields(s);
      if Split(s) == [] {
        assert forall i :: 0 <= i < |f| ==> f[i] == "";
        JoinOfEmpties(f);
      }
      if forall i :: 0 <= i < |s| ==> s[i] == '/' {
        SlashesHaveEmptyFields(s);
      }
    }
  }

  lemma {:induction false} JoinOfEmpties(f: seq<string>)
    requires forall i :: 0 <= i < |f| ==> f[i] == ""
    ensures forall i :: 0 <= i < |Join(f)| ==> Join(f)[i] == '/'
    decreases |f|
  {
    if |f| > 1 {
      JoinOfEmpties(f[1..]);
    }
  }

  lemma {:induction false} SlashesHaveEmptyFields(s: string)
    requires forall i :: 0 <= i < |s| ==> s[i] == '/'
    ensures |Fields(s)| == |s| + 1
    ensures forall i :: 0 <= i < |Fields(s)| ==> Fields(s)[i] == ""
    decreases |s|
  {
    if s != [] {
      SlashesHaveEmptyFields(s[1..]);
    }
  }

  /** Just the ASCII part of Character.toUpperCase followed by Character.toLowerCase. */
  function FoldCase(c: char): (r: char)
    ensures 'A' <= c <= 'Z' ==> 'a' <= r <= 'z' && r as int == c as int + 32
    ensures !('A' <= c <= 'Z') ==> r == c
  {
    if 'A' <= c <= 'Z' then (c as int + 32) as char else c
  }

  /**
    String.compareToIgnoreCase: the difference of the first pair of case-folded characters
    that differ, or else the difference of the lengths.
  */
  function CompareToIgnoreCase(a: string, b: string): (r: int)
    ensures r == 0 <==> |a| == |b| && forall i :: 0 <= i < |a| ==> FoldCase(a[i]) == FoldCase(b[i])
    decreases |a|
  {
    if a == [] || b == [] then |a| - |b|
    else if FoldCase(a[0]) != FoldCase(b[0]) then FoldCase(a[0]) as int - FoldCase(b[0]) as int
    else
      var r := CompareToIgnoreCase(a[1..], b[1..]);
      assert forall i :: 1 <= i < |a| ==> a[1..][i - 1] == a[i];
      assert |a| == |b| ==> forall i :: 1 <= i < |b| ==> b[1..][i - 1] == b[i];
      r
  }

  /**
    Which name compareToIgnoreCase puts first: with the first i characters equal after folding,
    it is the difference at position i, or the difference of the lengths when one name ends there.
  */
  lemma {:induction false} CompareFirstDifference(a: string, b: string, i: nat)
    requires i <= |a| && i <= |b|
    requires forall j :: 0 <= j < i ==> FoldCase(a[j]) == FoldCase(b[j])
    ensures i < |a| && i < |b| && FoldCase(a[i]) != FoldCase(b[i]) ==>
      CompareToIgnoreCase(a, b) == FoldCase(a[i]) as int - FoldCase(b[i]) as int
    ensures i == |a| || i == |b| ==> CompareToIgnoreCase(a, b) == |a| - |b|
    decreases i
  {
    if i > 0 {
      assert FoldCase(a[0]) == FoldCase(b[0]);
      assert forall j :: 0 <= j < i - 1 ==> a[1..][j] == a[j + 1] && b[1..][j] == b[j + 1];
      CompareFirstDifference(a[1..], b[1..], i - 1);
      if i < |a| && i < |b| {
        assert a[1..][i - 1] == a[i] && b[1..][i - 1] == b[i];
      }
    }
  }

  /**
    The order the comparator `(d1, d2) -> d1.getName().compareToIgnoreCase(d2.getName())` sorts
    by: the empty name comes first, and names equal up to case are ordered both ways.
  */
  function NameLe(a: string, b: string): (r: bool)
    ensures a == [] ==> r
    ensures |a| == |b| && (forall i :: 0 <= i < |a| ==> FoldCase(a[i]) == FoldCase(b[i])) ==> r
  {
    CompareToIgnoreCase(a, b) <= 0
  }

  lemma {:induction false} CompareAntisymmetric(a: string, b: string)
    ensures CompareToIgnoreCase(b, a) == -CompareToIgnoreCase(a, b)
    decreases |a|
  {
    if a != [] && b != [] && FoldCase(a[0]) == FoldCase(b[0]) {
      CompareAntisymmetric(a[1..], b[1..]);
    }
  }

  lemma NameLeTotal(a: string, b: string)
    ensures NameLe(a, b) || NameLe(b, a)
  {
    CompareAntisymmetric(a, b);
  }

  lemma {:induction false} NameLeTransitive(a: string, b: string, c: string)
    requires NameLe(a, b) && NameLe(b, c)
    ensures NameLe(a, c)
    decreases |a|
  {
    if a != [] && b != [] && c != [] {
      if FoldCase(a[0]) == FoldCase(b[0]) && FoldCase(b[0]) == FoldCase(c[0]) {
        NameLeTransitive(a[1..], b[1..], c[1..]);
      }
    }
  }

}
