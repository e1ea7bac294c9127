/**
  The search-term highlighting of the action suggestions panel: whenever the
  search string changes, every suggestion's `labelHtml` loses the highlight
  markers inserted earlier and, when the search string occurs in the label,
  gets each case-insensitive occurrence wrapped in a highlight span.

  The search string is taken as a literal needle (no regular-expression
  metacharacters) and case folding is ASCII.
 */
module ActionsSuggestions {
  import opened Wrappers

  const HighlightOpen: string := "<span class=\"highlighted\">"
  const HighlightClose: string := "</span>"

  /** One highlighted match adds 33 characters to a label. */
  lemma MarkerLengths()
    ensures |HighlightOpen| + |HighlightClose| == 33
  {
  }

  /** One suggested action as the panel lists it. */
  datatype Suggestion = Suggestion(name: string, category: string, labelHtml: string)

  // ---------------------------------------------------------------------------
  // String helpers
  // ---------------------------------------------------------------------------

  predicate StartsWith(s: string, p: string) {
    |p| <= |s| && s[..|p|] == p
  }

  predicate OccursAt(s: string, q: string, i: int) {
    0 <= i && i + |q| <= |s| && s[i..i + |q|] == q
  }

  predicate Contains(s: string, q: string) {
    exists i :: 0 <= i <= |s| && OccursAt(s, q, i)
  }

  /** `s.indexOf(q)`: the first position where `q` occurs, or -1. */
  function IndexOf(s: string, q: string): (r: int)
    ensures r == -1 || OccursAt(s, q, r)
    ensures r == -1 <==> !Contains(s, q)
    ensures forall j :: 0 <= j < r ==> !OccursAt(s, q, j)
  {
    IndexFrom(s, q, 0)
  }

  /** The first position at or after `k` where `q` occurs, or -1. */
  function IndexFrom(s: string, q: string, k: nat): (r: int)
    ensures r == -1 || (k <= r && OccursAt(s, q, r))
    ensures r == -1 <==> forall j :: k <= j <= |s| ==> !OccursAt(s, q, j)
    ensures forall j :: k <= j < r ==> !OccursAt(s, q, j)
    decreases |s| - k
  {
    if k + |q| > |s| then -1
    else if OccursAt(s, q, k) then k
    else IndexFrom(s, q, k + 1)
  }

  /** `s.replace(new RegExp('(' + p + ')', 'g'), '')` for a literal `p`:
      delete the occurrences of `p` found scanning left to right. */
  function RemoveAll(s: string, p: string): (r: string)
    requires |p| > 0
    ensures |r| <= |s|
    decreases |s|
  {
    if s == [] then s
    else if StartsWith(s, p) then RemoveAll(s[|p|..], p)
    else [s[0]] + RemoveAll(s[1..], p)
  }

  /** The two unconditional replacements at the start of the listener. */
  function Strip(s: string): (r: string)
    ensures |r| <= |s|
  {
    RemoveAll(RemoveAll(s, HighlightOpen), HighlightClose)
  }

  predicate IsUpper(c: char) {
    'A' <= c <= 'Z'
  }

  function LowerChar(c: char): char {
    if IsUpper(c) then (c as int + 32) as char else c
  }

  /** `toLowerCase()`, on ASCII letters. */
  function ToLower(s: string): (r: string)
    ensures |r| == |s|
    ensures forall i :: 0 <= i < |s| ==> r[i] == LowerChar(s[i])
  {
    seq(|s|, i requires 0 <= i < |s| => LowerChar(s[i]))
  }

  predicate HasUpper(q: string) {
    exists i :: 0 <= i < |q| && IsUpper(q[i])
  }

  /** The `i` flag of a regular expression: equal up to ASCII case. */
  predicate CiPrefix(s: string, q: string) {
    |q| <= |s| && ToLower(s[..|q|]) == ToLower(q)
  }

  predicate CiMatchAt(s: string, q: string, i: int) {
    0 <= i <= |s| && CiPrefix(s[i..], q)
  }

  /** `s.replace(new RegExp('(' + q + ')', 'gi'), HighlightOpen + '$1' + HighlightClose)`:
      scanning left to right, wrap every non-overlapping case-insensitive
      match, keeping the matched text as it was written. */
  function Highlight(s: string, q: string): (r: string)
    requires |q| > 0
    ensures |s| <= |r|
    ensures (|r| - |s|) % 33 == 0
    decreases |s|
  {
    if |s| < |q| then s
    else if CiPrefix(s, q) then MarkerLengths(); HighlightOpen + s[..|q|] + HighlightClose + Highlight(s[|q|..], q)
    else [s[0]] + Highlight(s[1..], q)
  }

  /** JavaScript truthiness of the search string: defined and not empty. */
  predicate IsSearchActive(search: Option<string>) {
    search.Some? && search.value != ""
  }

  /** What the listener makes of one label. */
  function RefreshLabel(labelHtml: string, search: Option<string>): (r: string)
    ensures |Strip(labelHtml)| <= |r|
  {
    var stripped := Strip(labelHtml);
    if IsSearchActive(search) && IndexOf(ToLower(stripped), search.value) != -1
    then Highlight(stripped, search.value)
    else stripped
  }

  /** The refreshed label is the stripped label plus whole marker pairs
      (33 characters each, see `MarkerLengths`). */
  lemma RefreshLabelLength(labelHtml: string, search: Option<string>)
    ensures (|RefreshLabel(labelHtml, search)| - |Strip(labelHtml)|) % 33 == 0
  {
    var stripped := Strip(labelHtml);
    if IsSearchActive(search) && IndexOf(ToLower(stripped), search.value) != -1 {
      assert |search.value| > 0;
      assert RefreshLabel(labelHtml, search) == Highlight(stripped, search.value);
    } else {
      assert RefreshLabel(labelHtml, search) == stripped;
    }
  }

  // ---------------------------------------------------------------------------
  // The listener
  // ---------------------------------------------------------------------------

  /** The `$watch` listener on the search string: rewrite every item's
      `labelHtml` in place, in list order. */
  method OnSearchChange(columnSuggestions: array<Suggestion>, searchActionString: Option<string>)
    modifies columnSuggestions
    ensures forall i :: 0 <= i < columnSuggestions.Length ==>
      columnSuggestions[i] == RefreshedItem(old(columnSuggestions[i]), searchActionString)
  {
    for i := 0 to columnSuggestions.Length
      invariant forall j :: 0 <= j < i ==>
        columnSuggestions[j] == RefreshedItem(old(columnSuggestions[j]), searchActionString)
      invariant forall j :: i <= j < columnSuggestions.Length ==> columnSuggestions[j] == old(columnSuggestions[j])
    {
      var before := columnSuggestions[i];
      assert before == old(columnSuggestions[i]);
      var item := RefreshItem(before, searchActionString);
      columnSuggestions[i] := item;
    }
  }

  /** An item as the listener leaves it: only its label is refreshed. */
  function RefreshedItem(item: Suggestion, search: Option<string>): Suggestion {
    item.(labelHtml := RefreshLabel(item.labelHtml, search))
  }

  /** The body of the listener's loop for one item: the three successive
      assignments to `labelHtml`. */
  method RefreshItem(item: Suggestion, searchActionString: Option<string>) returns (r: Suggestion)
    ensures r == RefreshedItem(item, searchActionString)
  {
    r := item;
    r := r.(labelHtml := RemoveAll(r.labelHtml, HighlightOpen));
    r := r.(labelHtml := RemoveAll(r.labelHtml, HighlightClose));
    if IsSearchActive(searchActionString) {
      if IndexOf(ToLower(r.labelHtml), searchActionString.value) != -1 {
        r := r.(labelHtml := Highlight(r.labelHtml, searchActionString.value));
      }
    }
  }

  // ---------------------------------------------------------------------------
  // Lemmas
  // ---------------------------------------------------------------------------

  /** A prefix without the first character of `p` passes through unchanged. */
  lemma {:induction false} RemoveAllSkip(u: string, v: string, p: string)
    requires |p| > 0 && p[0] !in u
    ensures RemoveAll(u + v, p) == u + RemoveAll(v, p)
    decreases |u|
  {
    if u == [] {
      assert u + v == v;
    } else {
      assert (u + v)[0] == u[0];
      assert (u + v)[1..] == u[1..] + v;
      RemoveAllSkip(u[1..], v, p);
    }
  }

  /** A prefix in which no occurrence of `p` starts passes through unchanged:
      a copy of `p[0]` that starts no occurrence is kept. */
  lemma {:induction false} RemoveAllCopyPrefix(u: string, v: string, p: string)
    requires |p| > 0
    requires forall i :: 0 <= i < |u| ==> !StartsWith((u + v)[i..], p)
    ensures RemoveAll(u + v, p) == u + RemoveAll(v, p)
    decreases |u|
  {
    if u == [] {
      assert u + v == v;
    } else {
      var s := u + v;
      assert !StartsWith(s[0..], p);
      assert s[0..] == s;
      assert s[1..] == u[1..] + v;
      forall i | 0 <= i < |u[1..]|
        ensures !StartsWith((u[1..] + v)[i..], p)
      {
        assert !StartsWith(s[i + 1..], p);
        assert s[i + 1..] == (u[1..] + v)[i..];
      }
      RemoveAllCopyPrefix(u[1..], v, p);
      assert [u[0]] + u[1..] == u;
    }
  }

  /** An occurrence at the front is deleted. */
  lemma RemoveAllDrop(v: string, p: string)
    requires |p| > 0
    ensures RemoveAll(p + v, p) == RemoveAll(v, p)
  {
    assert (p + v)[..|p|] == p;
    assert (p + v)[|p|..] == v;
  }

  /** A closing marker survives the removal of opening markers. */
  lemma CloseSurvivesOpenRemoval(v: string)
    ensures RemoveAll(HighlightClose + v, HighlightOpen) == HighlightClose + RemoveAll(v, HighlightOpen)
  {
    var w := HighlightClose + v;
    assert w[1] == '/' && HighlightOpen[1] == 's';
    assert !StartsWith(w, HighlightOpen);
    assert w[1..] == HighlightClose[1..] + v;
    RemoveAllSkip(HighlightClose[1..], v, HighlightOpen);
    assert [w[0]] + HighlightClose[1..] == HighlightClose;
  }

  /** Text without '<' holds no marker, so stripping leaves it alone. */
  lemma StripPlain(t: string)
    requires '<' !in t
    ensures Strip(t) == t
  {
    RemoveAllSkip(t, [], HighlightOpen);
    RemoveAllSkip(t, [], HighlightClose);
    assert t + [] == t;
  }

  /** One highlighted match followed by text that strips to `rest` strips
      to the match followed by `rest`. */
  lemma StripMarkedPiece(m: string, h: string, rest: string)
    requires '<' !in m && Strip(h) == rest
    ensures Strip(HighlightOpen + m + HighlightClose + h) == m + rest
  {
    var x := RemoveAll(h, HighlightOpen);
    calc {
      RemoveAll(HighlightOpen + m + HighlightClose + h, HighlightOpen);
      { assert HighlightOpen + m + HighlightClose + h == HighlightOpen + (m + (HighlightClose + h));
        RemoveAllDrop(m + (HighlightClose + h), HighlightOpen); }
      RemoveAll(m + (HighlightClose + h), HighlightOpen);
      { RemoveAllSkip(m, HighlightClose + h, HighlightOpen); }
      m + RemoveAll(HighlightClose + h, HighlightOpen);
      { CloseSurvivesOpenRemoval(h); }
      m + (HighlightClose + x);
    }
    calc {
      RemoveAll(m + (HighlightClose + x), HighlightClose);
      { RemoveAllSkip(m, HighlightClose + x, HighlightClose); }
      m + RemoveAll(HighlightClose + x, HighlightClose);
      { RemoveAllDrop(x, HighlightClose); }
      m + rest;
    }
  }

  /** Stripping a highlighted label gives back the label: the markers the
      listener inserts are exactly the ones the next run removes. */
  lemma {:induction false} StripHighlight(t: string, q: string)
    requires |q| > 0 && '<' !in t
    ensures Strip(Highlight(t, q)) == t
    decreases |t|
  {
    if |t| < |q| {
      StripPlain(t);
    } else if CiPrefix(t, q) {
      var m, rest := t[..|q|], t[|q|..];
      assert t == m + rest;
      StripHighlight(rest, q);
      StripMarkedPiece(m, Highlight(rest, q), rest);
    } else {
      var c, rest := t[0], t[1..];
      assert t == [c] + rest;
      var h := Highlight(rest, q);
      StripHighlight(rest, q);
      RemoveAllSkip([c], h, HighlightOpen);
      RemoveAllSkip([c], RemoveAll(h, HighlightOpen), HighlightClose);
    }
  }

  /** Lower-casing commutes with taking a slice. */
  lemma ToLowerSlice(t: string, i: int, j: int)
    requires 0 <= i <= j <= |t|
    ensures ToLower(t)[i..j] == ToLower(t[i..j])
  {
  }

  /** A lower-cased label has no upper-case letter, so a search string with
      one never occurs in it. */
  lemma LowerHasNoUpper(t: string)
    ensures !HasUpper(ToLower(t))
  {
    forall i | 0 <= i < |t|
      ensures !IsUpper(ToLower(t)[i])
    {
      assert ToLower(t)[i] == LowerChar(t[i]);
    }
  }

  /** A search string without upper-case letters occurs in the lower-cased
      label exactly where the case-insensitive pattern matches; one with an
      upper-case letter occurs nowhere in it. */
  lemma LowerOccurrence(t: string, q: string, i: int)
    ensures !HasUpper(q) ==> (OccursAt(ToLower(t), q, i) <==> CiMatchAt(t, q, i))
    ensures HasUpper(q) ==> !OccursAt(ToLower(t), q, i)
  {
    if 0 <= i && i + |q| <= |t| {
      ToLowerSlice(t, i, i + |q|);
      assert t[i..][..|q|] == t[i..i + |q|];
      if !HasUpper(q) {
        assert ToLower(q) == q;
      } else {
        var k :| 0 <= k < |q| && IsUpper(q[k]);
        assert !IsUpper(LowerChar(t[i + k]));
        assert ToLower(t)[i..i + |q|][k] != q[k];
      }
    }
  }

  /** A match at the front is wrapped and the scan resumes after it. */
  lemma {:induction false} HighlightWrapFront(m: string, v: string, q: string)
    requires |q| > 0 && |m| == |q| && CiPrefix(m, q)
    ensures Highlight(m + v, q) == HighlightOpen + m + HighlightClose + Highlight(v, q)
  {
    var s := m + v;
    assert s[..|q|] == m && s[|q|..] == v;
  }

  /** Without a match at the front, the first character is copied. */
  lemma {:induction false} HighlightCopyFront(s: string, q: string)
    requires |q| > 0 && |q| <= |s| && !CiMatchAt(s, q, 0)
    ensures Highlight(s, q) == [s[0]] + Highlight(s[1..], q)
  {
    assert s[0..] == s;
  }

  /** Dropping the first character shifts the positions without a match. */
  lemma {:induction false} NoMatchAfterFront(s: string, q: string, n: nat)
    requires 0 < n <= |s|
    requires forall i :: 0 <= i < n ==> !CiMatchAt(s, q, i)
    ensures forall i :: 0 <= i < n - 1 ==> !CiMatchAt(s[1..], q, i)
  {
    forall i | 0 <= i < n - 1
      ensures !CiMatchAt(s[1..], q, i)
    {
      assert !CiMatchAt(s, q, i + 1);
      assert s[i + 1..] == s[1..][i..];
    }
  }

  /** No case-insensitive match of `q` starts at any of the first `n`
      positions of `s`, stated one position at a time. */
  predicate UnmatchedPrefix(s: string, q: string, n: nat)
    decreases n
  {
    n == 0 || (0 < |s| && !CiMatchAt(s, q, 0) && UnmatchedPrefix(s[1..], q, n - 1))
  }

  lemma {:induction false} UnmatchedPrefixOfForall(s: string, q: string, n: nat)
    requires n <= |s|
    requires forall i :: 0 <= i < n ==> !CiMatchAt(s, q, i)
    ensures UnmatchedPrefix(s, q, n)
    decreases n
  {
    if n > 0 {
      NoMatchAfterFront(s, q, n);
      UnmatchedPrefixOfForall(s[1..], q, n - 1);
    }
  }

  /** One step of `HighlightCopyPrefix`: the first character of an unmatched
      prefix is copied. */
  lemma {:induction false} HighlightCopyStep(u: string, w: string, q: string)
    requires |q| > 0 && |q| <= |w| && |u| > 0
    requires UnmatchedPrefix(u + w, q, |u|)
    ensures Highlight(u + w, q) == [u[0]] + Highlight(u[1..] + w, q)
    ensures UnmatchedPrefix(u[1..] + w, q, |u| - 1)
  {
    var s := u + w;
    assert s[1..] == u[1..] + w;
    HighlightCopyFront(s, q);
  }

  /** Splitting off the first character and appending commute. */
  lemma ConsAppend(u: string, h: string)
    requires |u| > 0
    ensures [u[0]] + (u[1..] + h) == u + h
  {
    assert [u[0]] + u[1..] == u;
  }

  /** A prefix holding no start of a match is copied unchanged. */
  lemma {:induction false} HighlightCopyPrefix(u: string, w: string, q: string)
    requires |q| > 0 && |q| <= |w|
    requires UnmatchedPrefix(u + w, q, |u|)
    ensures Highlight(u + w, q) == u + Highlight(w, q)
    decreases |u|
  {
    if u == [] {
      assert u + w == w;
    } else {
      HighlightCopyStep(u, w, q);
      HighlightCopyPrefix(u[1..], w, q);
      ConsAppend(u, Highlight(w, q));
    }
  }

  /** Highlighting copies the text before the first case-insensitive match,
      wraps that match in the markers and carries on after it; with
      `HighlightNoMatch` this places every marker pair the scan inserts. */
  lemma {:induction false} HighlightFirstMatch(u: string, m: string, v: string, q: string)
    requires |q| > 0 && |m| == |q| && CiPrefix(m, q)
    requires forall i :: 0 <= i < |u| ==> !CiMatchAt(u + m + v, q, i)
    ensures Highlight(u + m + v, q) == u + HighlightOpen + m + HighlightClose + Highlight(v, q)
  {
    assert u + m + v == u + (m + v);
    UnmatchedPrefixOfForall(u + m + v, q, |u|);
    HighlightCopyPrefix(u, m + v, q);
    HighlightWrapFront(m, v, q);
  }

  /** Without a case-insensitive match, highlighting changes nothing. */
  lemma {:induction false} HighlightNoMatch(t: string, q: string)
    requires |q| > 0
    requires forall i :: !CiMatchAt(t, q, i)
    ensures Highlight(t, q) == t
    decreases |t|
  {
    if |q| <= |t| {
      assert !CiMatchAt(t, q, 0);
      assert t[0..] == t;
      forall i ensures !CiMatchAt(t[1..], q, i) {
        if 0 <= i <= |t| - 1 {
          assert t[1..][i..] == t[i + 1..];
          assert !CiMatchAt(t, q, i + 1);
        }
      }
      HighlightNoMatch(t[1..], q);
    }
  }

  /** The listener on one label: strip the old markers; if the search string
      is set and has no upper-case letter, highlight it; otherwise keep the
      stripped label. A search string with an upper-case letter never
      highlights, because it is compared with the lower-cased label as typed. */
  lemma RefreshLabelCharacterization(labelHtml: string, search: Option<string>)
    ensures RefreshLabel(labelHtml, search) ==
      if IsSearchActive(search) && !HasUpper(search.value)
      then Highlight(Strip(labelHtml), search.value)
      else Strip(labelHtml)
  {
    if IsSearchActive(search) {
      var t, q := Strip(labelHtml), search.value;
      var r := IndexOf(ToLower(t), q);
      if HasUpper(q) {
        if r != -1 {
          LowerOccurrence(t, q, r);
        }
      } else if r == -1 {
        forall i ensures !CiMatchAt(t, q, i) {
          LowerOccurrence(t, q, i);
        }
        HighlightNoMatch(t, q);
      }
    }
  }

  /** Earlier highlights never accumulate: a label highlighted for one search
      string is refreshed for the next exactly as its plain text would be. */
  lemma RefreshForgetsHighlight(t: string, previous: string, search: Option<string>)
    requires |previous| > 0 && '<' !in t
    ensures RefreshLabel(Highlight(t, previous), search) == RefreshLabel(t, search)
  {
    StripHighlight(t, previous);
    StripPlain(t);
  }

  /** Re-running the listener with the same search string changes nothing,
      for labels whose text outside the markers has no '<'. */
  lemma RefreshIdempotent(labelHtml: string, search: Option<string>)
    requires '<' !in Strip(labelHtml)
    ensures RefreshLabel(RefreshLabel(labelHtml, search), search) == RefreshLabel(labelHtml, search)
  {
    var t := Strip(labelHtml);
    StripPlain(t);
    if IsSearchActive(search) && IndexOf(ToLower(t), search.value) != -1 {
      RefreshForgetsHighlight(t, search.value, search);
    }
  }

  /** Every '<' of the label begins a highlight marker: the labels this
      listener itself produces from plain text. */
  predicate OnlyMarkerTags(s: string) {
    forall i :: 0 <= i < |s| && s[i] == '<' ==>
      StartsWith(s[i..], HighlightOpen) || StartsWith(s[i..], HighlightClose)
  }

  predicate OnlyCloseTags(s: string) {
    forall i :: 0 <= i < |s| && s[i] == '<' ==> StartsWith(s[i..], HighlightClose)
  }

  lemma MarkerTagsSuffix(s: string, k: nat)
    requires k <= |s|
    ensures OnlyMarkerTags(s) ==> OnlyMarkerTags(s[k..])
    ensures OnlyCloseTags(s) ==> OnlyCloseTags(s[k..])
  {
    forall i | 0 <= i < |s| - k
      ensures s[k..][i] == s[k + i] && s[k..][i..] == s[k + i..]
    {
    }
  }

  lemma CloseTagsCons(c: char, x: string)
    requires c != '<' && OnlyCloseTags(x)
    ensures OnlyCloseTags([c] + x)
  {
    var w := [c] + x;
    forall i | 1 <= i < |w|
      ensures w[i] == x[i - 1] && w[i..] == x[i - 1..]
    {
    }
  }

  lemma CloseTagsPrependClose(x: string)
    requires OnlyCloseTags(x)
    ensures OnlyCloseTags(HighlightClose + x)
  {
    var w := HighlightClose + x;
    var n := |HighlightClose|;
    assert w[0..] == w && w[..n] == HighlightClose;
    assert forall i :: 0 <= i < n ==> w[i] == HighlightClose[i];
    forall i | n <= i < |w|
      ensures w[i] == x[i - n] && w[i..] == x[i - n..]
    {
    }
  }

  /** Removing closing markers from a text whose every '<' opens one leaves
      no '<' at all. */
  lemma {:induction false} CloseTagsRemoved(s: string)
    requires OnlyCloseTags(s)
    ensures '<' !in RemoveAll(s, HighlightClose)
    decreases |s|
  {
    if s != [] {
      if StartsWith(s, HighlightClose) {
        MarkerTagsSuffix(s, |HighlightClose|);
        CloseTagsRemoved(s[|HighlightClose|..]);
      } else {
        assert s[0..] == s;
        MarkerTagsSuffix(s, 1);
        CloseTagsRemoved(s[1..]);
      }
    }
  }

  /** Removing opening markers from a text whose every '<' begins a marker
      leaves a text whose every '<' begins a closing marker. */
  lemma {:induction false} OpenTagsRemoved(s: string)
    requires OnlyMarkerTags(s)
    ensures OnlyCloseTags(RemoveAll(s, HighlightOpen))
    decreases |s|
  {
    if s != [] {
      assert s[0..] == s;
      if StartsWith(s, HighlightOpen) {
        MarkerTagsSuffix(s, |HighlightOpen|);
        OpenTagsRemoved(s[|HighlightOpen|..]);
      } else if s[0] != '<' {
        MarkerTagsSuffix(s, 1);
        OpenTagsRemoved(s[1..]);
        CloseTagsCons(s[0], RemoveAll(s[1..], HighlightOpen));
      } else {
        var rest := s[|HighlightClose|..];
        assert s == HighlightClose + rest;
        MarkerTagsSuffix(s, |HighlightClose|);
        OpenTagsRemoved(rest);
        CloseSurvivesOpenRemoval(rest);
        CloseTagsPrependClose(RemoveAll(rest, HighlightOpen));
      }
    }
  }

  /** The listener removes every marker first: a label whose only tags are
      highlight markers comes out of stripping with no '<' left, hence with
      no marker. */
  lemma MarkersRemoved(labelHtml: string)
    requires OnlyMarkerTags(labelHtml)
    ensures '<' !in Strip(labelHtml)
    ensures !Contains(Strip(labelHtml), HighlightOpen)
    ensures !Contains(Strip(labelHtml), HighlightClose)
  {
    OpenTagsRemoved(labelHtml);
    CloseTagsRemoved(RemoveAll(labelHtml, HighlightOpen));
    var t := Strip(labelHtml);
    forall i | 0 <= i <= |t| ensures !OccursAt(t, HighlightOpen, i) && !OccursAt(t, HighlightClose, i) {
      if i + |HighlightClose| <= |t| {
        assert t[i..i + |HighlightClose|][0] == t[i] != '<';
      }
      if i + |HighlightOpen| <= |t| {
        assert t[i..i + |HighlightOpen|][0] == t[i] != '<';
      }
    }
  }

  /** Each marker has its only '<' in front. */
  lemma OpenMarkerShape()
    ensures HighlightOpen[0] == '<' && '<' !in HighlightOpen[1..]
  {
  }

  lemma CloseMarkerShape()
    ensures HighlightClose[0] == '<' && '<' !in HighlightClose[1..]
  {
  }

  /** Putting plain text in front keeps "only marker tags". */
  lemma MarkerTagsPrependPlain(u: string, x: string)
    requires '<' !in u && OnlyMarkerTags(x)
    ensures OnlyMarkerTags(u + x)
  {
    var w := u + x;
    assert forall i :: 0 <= i < |u| ==> w[i] == u[i];
    forall i | |u| <= i < |w|
      ensures w[i] == x[i - |u|] && w[i..] == x[i - |u|..]
    {
    }
  }

  /** Putting a marker in front keeps "only marker tags". */
  lemma MarkerTagsPrependMarker(p: string, x: string)
    requires p == HighlightOpen || p == HighlightClose
    requires OnlyMarkerTags(x)
    ensures OnlyMarkerTags(p + x)
  {
    OpenMarkerShape();
    CloseMarkerShape();
    var w := p + x;
    assert w[0..] == w && w[..|p|] == p;
    assert forall i :: 0 < i < |p| ==> w[i] == p[i] && p[i] == p[1..][i - 1];
    forall i | |p| <= i < |w|
      ensures w[i] == x[i - |p|] && w[i..] == x[i - |p|..]
    {
    }
  }

  /** Highlighting plain text produces a label whose only tags are markers. */
  lemma {:induction false} HighlightOnlyMarkerTags(t: string, q: string)
    requires |q| > 0 && '<' !in t
    ensures OnlyMarkerTags(Highlight(t, q))
    decreases |t|
  {
    if |t| < |q| {
    } else if CiPrefix(t, q) {
      var m, rest := t[..|q|], t[|q|..];
      HighlightOnlyMarkerTags(rest, q);
      var x := Highlight(rest, q);
      assert Highlight(t, q) == HighlightOpen + (m + (HighlightClose + x));
      MarkerTagsPrependMarker(HighlightClose, x);
      MarkerTagsPrependPlain(m, HighlightClose + x);
      MarkerTagsPrependMarker(HighlightOpen, m + (HighlightClose + x));
    } else {
      HighlightOnlyMarkerTags(t[1..], q);
      MarkerTagsPrependPlain([t[0]], Highlight(t[1..], q));
    }
  }
}
