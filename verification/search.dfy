/**
  The search dialog: a case-insensitive substring filter over the task list,
  gated on a query that is not blank, and the label and colour shown for each
  status in the result list.
 */
module Search {
  import opened Seqs
  import opened Types

  // ----- JavaScript string primitives -----

  /** `toLowerCase` on one character, restricted to ASCII letters. */
  function LowerChar(c: char): (r: char)
    ensures 'A' <= c <= 'Z' ==> 'a' <= r <= 'z' && r as int - c as int == 32
    ensures !('A' <= c <= 'Z') ==> r == c
  {
    if 'A' <= c <= 'Z' then (c as int + 32) as char else c
  }

  /** `toLowerCase` on a string, character by character. */
  function Lower(s: string): (r: string)
    ensures |r| == |s|
    ensures forall i :: 0 <= i < |s| ==> r[i] == LowerChar(s[i])
  {
    if |s| == 0 then [] else [LowerChar(s[0])] + Lower(s[1..])
  }

  /** Lower-casing leaves no upper-case letter behind, so doing it twice changes nothing. */
  lemma {:induction false} LowerIdempotent(s: string)
    ensures forall i :: 0 <= i < |s| ==> !('A' <= Lower(s)[i] <= 'Z')
    ensures Lower(Lower(s)) == Lower(s)
  {
  }

  /** `needle` occurs in `hay` starting at position `i`. */
  ghost predicate OccursAt(hay: string, needle: string, i: int)
  {
    0 <= i && i + |needle| <= |hay| && hay[i..i + |needle|] == needle
  }

  /** `String.prototype.includes`: the empty needle occurs everywhere. */
  function Includes(hay: string, needle: string): (b: bool)
    ensures b ==> |needle| <= |hay|
    ensures |needle| == 0 ==> b
  {
    if |needle| <= |hay| && hay[..|needle|] == needle then true
    else if |hay| == 0 then false
    else Includes(hay[1..], needle)
  }

  /** `includes` answers exactly whether the needle occurs at some position. */
  lemma {:induction false} IncludesIffOccurs(hay: string, needle: string)
    ensures Includes(hay, needle) <==> exists i :: OccursAt(hay, needle, i)
  {
    if |needle| <= |hay| && hay[..|needle|] == needle {
      assert OccursAt(hay, needle, 0);
    } else if |hay| == 0 {
    } else {
      IncludesIffOccurs(hay[1..], needle);
      if i :| OccursAt(hay[1..], needle, i) {
        assert hay[i + 1..i + 1 + |needle|] == hay[1..][i..i + |needle|];
        assert OccursAt(hay, needle, i + 1);
      }
      if i :| OccursAt(hay, needle, i) {
        if i != 0 {
          assert hay[1..][i - 1..i - 1 + |needle|] == hay[i..i + |needle|];
          assert OccursAt(hay[1..], needle, i - 1);
        }
      }
    }
  }

  /** Every character of a needle that occurs in `hay` is a character of `hay`. */
  lemma {:induction false} IncludesKeepsChars(hay: string, needle: string, c: char)
    requires Includes(hay, needle) && c in needle
    ensures c in hay
  {
    IncludesIffOccurs(hay, needle);
    var i :| OccursAt(hay, needle, i);
    var k :| 0 <= k < |needle| && needle[k] == c;
    assert hay[i + k] == hay[i..i + |needle|][k];
  }

  /** The characters `trim` removes: JavaScript's WhiteSpace and LineTerminator sets. */
  predicate IsWhiteSpace(c: char)
  {
    || c == '\t' || c == '\n' || c == '\U{000B}' || c == '\U{000C}' || c == '\r' || c == ' '
    || c == '\U{00A0}' || c == '\U{1680}' || '\U{2000}' <= c <= '\U{200A}'
    || c == '\U{2028}' || c == '\U{2029}' || c == '\U{202F}' || c == '\U{205F}'
    || c == '\U{3000}' || c == '\U{FEFF}'
  }

  /** `trimStart`: the suffix of `s` left after its leading white space. */
  function TrimStart(s: string): (r: string)
    ensures |r| <= |s| && r == s[|s| - |r|..]
    ensures forall i :: 0 <= i < |s| - |r| ==> IsWhiteSpace(s[i])
    ensures |r| > 0 ==> !IsWhiteSpace(r[0])
  {
    if |s| > 0 && IsWhiteSpace(s[0]) then TrimStart(s[1..]) else s
  }

  /** `trimEnd`: the prefix of `s` left before its trailing white space. */
  function TrimEnd(s: string): (r: string)
    ensures |r| <= |s| && r == s[..|r|]
    ensures forall i :: |r| <= i < |s| ==> IsWhiteSpace(s[i])
    ensures |r| > 0 ==> !IsWhiteSpace(r[|r| - 1])
  {
    if |s| > 0 && IsWhiteSpace(s[|s| - 1]) then TrimEnd(s[..|s| - 1]) else s
  }

  /** `trim`: white space removed from both ends. */
  function Trim(s: string): (r: string)
    ensures |r| <= |s|
    ensures |r| > 0 ==> !IsWhiteSpace(r[0]) && !IsWhiteSpace(r[|r| - 1])
  {
    TrimEnd(TrimStart(s))
  }

  /** A query is blank, and so falsy once trimmed, exactly when every character is white space. */
  lemma {:induction false} TrimEmptyIffBlank(s: string)
    ensures |Trim(s)| == 0 <==> forall i :: 0 <= i < |s| ==> IsWhiteSpace(s[i])
  {
    var a := TrimStart(s);
    var b := TrimEnd(a);
    if |b| == 0 {
      assert |a| == 0;
    }
    if |b| != 0 {
      assert !IsWhiteSpace(b[0]) && b[0] == a[0] && a[0] == s[|s| - |a|];
    }
  }

  // ----- the search filter -----

  /** Some field of `t`, lower-cased, has the lower-cased query at some position. */
  ghost predicate ContainsQuery(t: Task, q: string)
  {
    || (exists i :: OccursAt(Lower(t.title), Lower(q), i))
    || (exists i :: OccursAt(Lower(t.description), Lower(q), i))
    || (exists i :: OccursAt(Lower(t.projectName), Lower(q), i))
  }

  /** One task matches when its lower-cased title, description or project name
      contains the lower-cased query, that is, when the query occurs in one of
      them at some position. */
  function Matches(q: string): (f: Task -> bool)
    ensures forall t :: f(t) <==> ContainsQuery(t, q)
  {
    var f := (t: Task) =>
      || Includes(Lower(t.title), Lower(q))
      || Includes(Lower(t.description), Lower(q))
      || Includes(Lower(t.projectName), Lower(q));
    assert forall t :: f(t) <==> ContainsQuery(t, q) by {
      forall t ensures f(t) <==> ContainsQuery(t, q) {
        IncludesIffOccurs(Lower(t.title), Lower(q));
        IncludesIffOccurs(Lower(t.description), Lower(q));
        IncludesIffOccurs(Lower(t.projectName), Lower(q));
      }
    }
    f
  }

  /** The result list of the dialog: nothing for a blank query, otherwise the
      matching tasks in board order. */
  function Filtered(ts: seq<Task>, q: string): (r: seq<Task>)
    ensures |r| <= |ts|
    ensures |Trim(q)| == 0 ==> r == []
  {
    if |Trim(q)| == 0 then [] else Filter(Matches(q), ts)
  }

  /** For a query that is not blank, a task is listed exactly when it is on the
      board and one of its three fields contains the query, ignoring case. */
  lemma {:induction false} FilteredMembership(ts: seq<Task>, q: string, t: Task)
    requires exists i :: 0 <= i < |q| && !IsWhiteSpace(q[i])
    ensures t in Filtered(ts, q) <==> (t in ts && ContainsQuery(t, q))
  {
    TrimEmptyIffBlank(q);
    var m := Matches(q);
    assert Filtered(ts, q) == Filter(m, ts);
    assert m(t) <==> ContainsQuery(t, q);
  }

  /** A blank query lists nothing, whatever the board holds. */
  lemma {:induction false} BlankQueryListsNothing(ts: seq<Task>, q: string)
    requires forall i :: 0 <= i < |q| ==> IsWhiteSpace(q[i])
    ensures Filtered(ts, q) == []
  {
    TrimEmptyIffBlank(q);
  }

  /** The results keep the board order: they are a subsequence of the task list. */
  lemma {:induction false} FilteredIsSubsequence(ts: seq<Task>, q: string)
    ensures IsSubsequence(Filtered(ts, q), ts)
  {
    if |Trim(q)| == 0 {
      assert Embeds([], Filtered(ts, q), ts);
    } else {
      FilterIsSubsequence(Matches(q), ts);
    }
  }

  /** The query is matched untrimmed: a character of the query, such as a
      padding space, that occurs in none of a task's lower-cased fields keeps
      that task out of the results. */
  lemma {:induction false} UntrimmedQueryMustOccur(ts: seq<Task>, q: string, t: Task, c: char)
    requires c in Lower(q)
    requires c !in Lower(t.title) && c !in Lower(t.description) && c !in Lower(t.projectName)
    ensures t !in Filtered(ts, q)
  {
    if Includes(Lower(t.title), Lower(q)) {
      IncludesKeepsChars(Lower(t.title), Lower(q), c);
    }
    if Includes(Lower(t.description), Lower(q)) {
      IncludesKeepsChars(Lower(t.description), Lower(q), c);
    }
    if Includes(Lower(t.projectName), Lower(q)) {
      IncludesKeepsChars(Lower(t.projectName), Lower(q), c);
    }
  }

  // ----- how a result row shows its status -----

  /** The colour family of a status badge: indigo, orange or green
      background and text classes, with their dark-mode variants. */
  datatype Tone = Indigo | Orange | Green

  /** The status caption of a result row. */
  function StatusLabel(s: Status): (caption: string)
    ensures |caption| > 0
  {
    match s
    case Todo => "To do"
    case InProgress => "In progress"
    case Done => "Done"
  }

  /** The badge colour of a result row. */
  function StatusColor(s: Status): (tone: Tone)
    ensures tone == Green <==> s == Done
  {
    match s
    case Todo => Indigo
    case InProgress => Orange
    case Done => Green
  }

  /** Both maps are total, and no two statuses share a caption or a colour. */
  lemma {:induction false} StatusMapsAreInjective(a: Status, b: Status)
    ensures StatusLabel(a) == StatusLabel(b) <==> a == b
    ensures StatusColor(a) == StatusColor(b) <==> a == b
  {
    if a != b {
      assert StatusLabel(a)[0] != StatusLabel(b)[0];
    }
  }
}
