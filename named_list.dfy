/** The named list's value-level logic: Python's `str.strip()`, the
    active-index clamping after a removal, the first-match search of manual
    removal, the removal filter of "remove selected", the merge that import
    performs over the lines of a file, and the lines an export writes. */
module NamedList {

  /** Python's `str.isspace`: the characters `str.strip()` removes at both ends. */
  predicate IsSpace(c: char) {
    || c == ' ' || '\t' <= c <= '\r' || '\U{1C}' <= c <= '\U{1F}'
    || c == '\U{85}' || c == '\U{A0}' || c == '\U{1680}' || '\U{2000}' <= c <= '\U{200A}'
    || c == '\U{2028}' || c == '\U{2029}' || c == '\U{202F}' || c == '\U{205F}' || c == '\U{3000}'
  }

  /** Blanks, tabs and line breaks are whitespace; the letters, digits, `_` and `.`
      that object names are usually made of are not. */
  lemma WhitespaceClasses(c: char)
    ensures c == ' ' || c == '\t' || c == '\n' || c == '\r' || c == '\U{A0}' || c == '\U{3000}' ==> IsSpace(c)
    ensures 'a' <= c <= 'z' || 'A' <= c <= 'Z' || '0' <= c <= '9' || c == '_' || c == '.' ==> !IsSpace(c)
  {
  }

  /** `s` with its leading whitespace removed. */
  function StripLeading(s: string): (r: string)
    ensures |r| <= |s| && r == s[|s| - |r|..]
    ensures forall i :: 0 <= i < |s| - |r| ==> IsSpace(s[i])
    ensures r == [] || !IsSpace(r[0])
  {
    if s != [] && IsSpace(s[0]) then
      var t := StripLeading(s[1..]);
      assert s[1..][|s[1..]| - |t|..] == s[|s| - |t|..];
      t
    else s
  }

  /** `s` with its trailing whitespace removed. */
  function StripTrailing(s: string): (r: string)
    ensures |r| <= |s| && r == s[..|r|]
    ensures forall i :: |r| <= i < |s| ==> IsSpace(s[i])
    ensures r == [] || !IsSpace(r[|r| - 1])
  {
    if s != [] && IsSpace(s[|s| - 1]) then
      var t := StripTrailing(s[..|s| - 1]);
      assert s[..|s| - 1][..|t|] == s[..|t|];
      t
    else s
  }

  /** `str.strip()`: the result neither starts nor ends with whitespace;
      `StripSlice` says which part of `s` it is. */
  function Strip(s: string): (r: string)
    ensures |r| <= |s|
    ensures r == [] || (!IsSpace(r[0]) && !IsSpace(r[|r| - 1]))
  {
    StripTrailing(StripLeading(s))
  }

  /** The strip of `s` is the slice of `s` that starts after its leading whitespace. */
  lemma StripSlice(s: string)
    ensures |s| - |StripLeading(s)| + |Strip(s)| <= |s|
    ensures Strip(s) == s[|s| - |StripLeading(s)|..|s| - |StripLeading(s)| + |Strip(s)|]
  {
    var t := StripLeading(s);
    var r := StripTrailing(t);
    SliceOfSuffix(s, t, r);
  }

  /** A prefix `r` of a suffix `t` of `s` is a slice of `s`. */
  lemma SliceOfSuffix<T>(s: seq<T>, t: seq<T>, r: seq<T>)
    requires |t| <= |s| && t == s[|s| - |t|..]
    requires |r| <= |t| && r == t[..|r|]
    ensures r == s[|s| - |t|..|s| - |t| + |r|]
  {
  }

  /** Every character of `s` outside its strip is whitespace: stripping drops nothing else. */
  lemma StripDropsOnlySpace(s: string)
    ensures forall i :: 0 <= i < |s| - |StripLeading(s)| ==> IsSpace(s[i])
    ensures forall i :: |s| - |StripLeading(s)| + |Strip(s)| <= i < |s| ==> IsSpace(s[i])
  {
    var t := StripLeading(s);
    var k := |s| - |t|;
    var r := StripTrailing(t);
    forall i | k + |r| <= i < |s|
      ensures IsSpace(s[i])
    {
      assert s[i] == t[i - k];
    }
  }

  /** A string that neither starts nor ends with whitespace is its own strip;
      with the ensures of `Strip`, this makes `Strip` idempotent. */
  lemma StripFixed(s: string)
    requires s == [] || (!IsSpace(s[0]) && !IsSpace(s[|s| - 1]))
    ensures Strip(s) == s
  {
    assert StripLeading(s) == s;
    assert StripTrailing(s) == s;
  }

  /** Stripping a line read back from a file drops its line terminator. */
  lemma StripLine(n: string)
    requires n != "" && Strip(n) == n
    ensures Strip(n + "\n") == n
  {
    var line := n + "\n";
    assert !IsSpace(n[0]) && !IsSpace(n[|n| - 1]);
    assert line[0] == n[0];
    assert StripLeading(line) == line;
    assert line[|line| - 1] == '\n';
    assert line[..|line| - 1] == n;
    assert StripTrailing(line) == StripTrailing(n);
    StripFixed(n);
  }

  /** The active index after a removal: unchanged when still in range, the last entry
      when past the end, -1 once the list is empty. The host keeps the index at -1 or above. */
  function ClampActive(active: int, len: nat): (r: int)
    requires -1 <= active
    ensures -1 <= r < len
    ensures r <= active
    ensures r == -1 <==> len == 0 || active == -1
    ensures len > 0 ==> (r == active || r == len - 1)
  {
    if len > 0 then (var last := if 0 < len - 1 then len - 1 else 0; if active < last then active else last)
    else -1
  }

  /** Every non-empty name occurs at most once; empty entries may repeat. */
  predicate DistinctNonBlank(names: seq<string>) {
    forall i, j :: 0 <= i < j < |names| && names[i] != "" ==> names[i] != names[j]
  }

  /** Removing one entry keeps the non-empty names distinct. */
  lemma RemoveAtKeepsDistinct(names: seq<string>, k: nat)
    requires DistinctNonBlank(names) && k < |names|
    ensures DistinctNonBlank(names[..k] + names[k + 1..])
  {
    var r := names[..k] + names[k + 1..];
    forall i, j | 0 <= i < j < |r| && r[i] != ""
      ensures r[i] != r[j]
    {
      var i' := if i < k then i else i + 1;
      var j' := if j < k then j else j + 1;
      assert r[i] == names[i'] && r[j] == names[j'];
    }
  }

  /** The search of manual removal: the index of the first entry equal to `name`, or -1. */
  method FindFirst(names: seq<string>, name: string) returns (found: int)
    ensures -1 <= found < |names|
    ensures found == -1 <==> name !in names
    ensures found >= 0 ==> names[found] == name && name !in names[..found]
  {
    found := -1;
    var i := 0;
    while i < |names|
      invariant 0 <= i <= |names|
      invariant name !in names[..i]
    {
      if names[i] == name {
        found := i;
        break;
      }
      i := i + 1;
    }
  }

  /** `indices_to_remove`: the positions of the entries whose name is in `sel`, ascending. */
  function MatchingIndices(names: seq<string>, sel: set<string>): (ix: seq<nat>)
    ensures forall k :: 0 <= k < |ix| ==> ix[k] < |names| && names[ix[k]] in sel
    ensures forall k, l :: 0 <= k < l < |ix| ==> ix[k] < ix[l]
  {
    if names == [] then []
    else
      var n := |names| - 1;
      MatchingIndices(names[..n], sel) + (if names[n] in sel then [n] else [])
  }

  /** Every position of a matching entry is among the indices to remove. */
  lemma {:induction false} MatchingIndicesComplete(names: seq<string>, sel: set<string>)
    ensures forall i :: 0 <= i < |names| && names[i] in sel ==> i in MatchingIndices(names, sel)
  {
    if names != [] {
      var n := |names| - 1;
      var pre := MatchingIndices(names[..n], sel);
      var ix := MatchingIndices(names, sel);
      assert ix == pre + (if names[n] in sel then [n] else []);
      MatchingIndicesComplete(names[..n], sel);
      forall i | 0 <= i < |names| && names[i] in sel
        ensures i in ix
      {
        if i < n {
          assert names[..n][i] == names[i];
          assert i in pre;
        }
      }
    }
  }

  /** The list with every entry whose name is in `sel` removed, order kept. */
  function Without(names: seq<string>, sel: set<string>): (r: seq<string>)
    ensures |r| <= |names|
  {
    if names == [] then []
    else
      var n := |names| - 1;
      Without(names[..n], sel) + (if names[n] in sel then [] else [names[n]])
  }

  /** The filtered list holds exactly the entries whose name is not in `sel`. */
  lemma {:induction false} WithoutMembers(names: seq<string>, sel: set<string>)
    ensures forall x :: x in Without(names, sel) <==> x in names && x !in sel
  {
    if names != [] {
      var n := |names| - 1;
      WithoutMembers(names[..n], sel);
      assert names == names[..n] + [names[n]];
    }
  }

  /** Filtering drops one entry per matching index and keeps every other entry. */
  lemma {:induction false} WithoutLength(names: seq<string>, sel: set<string>)
    ensures |Without(names, sel)| == |names| - |MatchingIndices(names, sel)|
  {
    if names != [] {
      WithoutLength(names[..|names| - 1], sel);
    }
  }

  /** Filtering distributes over concatenation. */
  lemma {:induction false} WithoutConcat(a: seq<string>, b: seq<string>, sel: set<string>)
    ensures Without(a + b, sel) == Without(a, sel) + Without(b, sel)
  {
    if b != [] {
      var n := |b| - 1;
      assert (a + b)[..|a + b| - 1] == a + b[..n];
      assert (a + b)[|a + b| - 1] == b[n];
      WithoutConcat(a, b[..n], sel);
    } else {
      assert a + b == a;
    }
  }

  /** A list with no matching entry is left as it is. */
  lemma {:induction false} WithoutNone(s: seq<string>, sel: set<string>)
    requires forall i :: 0 <= i < |s| ==> s[i] !in sel
    ensures Without(s, sel) == s
  {
    if s != [] {
      WithoutNone(s[..|s| - 1], sel);
    }
  }

  /** Filtering keeps the non-empty names distinct. */
  lemma {:induction false} WithoutKeepsDistinct(names: seq<string>, sel: set<string>)
    requires DistinctNonBlank(names)
    ensures DistinctNonBlank(Without(names, sel))
  {
    if names != [] {
      var n := |names| - 1;
      WithoutKeepsDistinct(names[..n], sel);
      WithoutMembers(names[..n], sel);
      assert names[n] != "" ==> names[n] !in names[..n];
    }
  }

  /** One step of the reversed removal loop: with the entries from `p` on already filtered
      and no match strictly between `q` and `p`, removing the match at `q` extends the
      filtered part down to `q`. */
  lemma RemoveStep(names: seq<string>, sel: set<string>, q: nat, p: nat)
    requires q < p <= |names| && names[q] in sel
    requires forall i :: q < i < p ==> names[i] !in sel
    ensures var cur := names[..p] + Without(names[p..], sel);
      cur[..q] + cur[q + 1..] == names[..q] + Without(names[q..], sel)
  {
    var t := Without(names[p..], sel);
    var cur := names[..p] + t;
    SplitAround(names[..p], q);
    DropAt(names[..q], names[q], names[q + 1..p] + t);
    assert cur == names[..q] + [names[q]] + (names[q + 1..p] + t);
    SkipMatch(names, sel, q, p);
  }

  /** A prefix up to `p` is the part before `q`, the element at `q`, and the part after. */
  lemma SplitAround<T>(s: seq<T>, q: nat)
    requires q < |s|
    ensures s == s[..q] + [s[q]] + s[q + 1..]
  {
  }

  /** Dropping the element after `front` leaves `front` followed by the rest. */
  lemma DropAt<T>(front: seq<T>, x: T, rest: seq<T>)
    ensures var s := front + [x] + rest;
      s[..|front|] + s[|front| + 1..] == front + rest
  {
    var s := front + [x] + rest;
    assert s[..|front|] == front;
    assert s[|front| + 1..] == rest;
  }

  /** Filtering from a match at `q` with no match up to `p` drops the match and keeps the
      entries up to `p`. */
  lemma SkipMatch(names: seq<string>, sel: set<string>, q: nat, p: nat)
    requires q < p <= |names| && names[q] in sel
    requires forall i :: q < i < p ==> names[i] !in sel
    ensures Without(names[q..], sel) == names[q + 1..p] + Without(names[p..], sel)
  {
    var x, mid, back := names[q], names[q + 1..p], names[p..];
    assert names[q..] == ([x] + mid) + back;
    WithoutConcat([x] + mid, back, sel);
    WithoutConcat([x], mid, sel);
    forall i | 0 <= i < |mid| ensures mid[i] !in sel {
      assert mid[i] == names[q + 1 + i];
    }
    WithoutNone(mid, sel);
    assert Without([x], sel) == [];
  }

  /** Between two consecutive matching indices (or after the last one) no entry matches. */
  lemma NoMatchBetween(names: seq<string>, sel: set<string>, j: nat)
    requires j < |MatchingIndices(names, sel)|
    ensures var ix := MatchingIndices(names, sel);
      forall i :: ix[j] < i < (if j + 1 == |ix| then |names| else ix[j + 1]) ==> names[i] !in sel
  {
    var ix := MatchingIndices(names, sel);
    var p := if j + 1 == |ix| then |names| else ix[j + 1];
    MatchingIndicesComplete(names, sel);
    forall i | ix[j] < i < p
      ensures names[i] !in sel
    {
      forall l | 0 <= l < |ix|
        ensures ix[l] != i
      {
        if l < j {
          assert ix[l] < ix[j];
        } else if l > j + 1 {
          assert ix[j + 1] < ix[l];
        }
      }
    }
  }

  /** No entry before the first matching index matches. */
  lemma NoMatchBefore(names: seq<string>, sel: set<string>)
    requires MatchingIndices(names, sel) != []
    ensures forall i :: 0 <= i < MatchingIndices(names, sel)[0] ==> names[i] !in sel
  {
    var ix := MatchingIndices(names, sel);
    MatchingIndicesComplete(names, sel);
    forall i | 0 <= i < ix[0]
      ensures names[i] !in sel
    {
      forall l | 0 < l < |ix|
        ensures ix[l] != i
      {
        assert ix[0] < ix[l];
      }
    }
  }

  /** The list part of the reversed removal loop once the last `|ix| - j` matches are gone:
      untouched up to the `j`-th matching index, filtered from there on. */
  function FilteredFrom(names: seq<string>, sel: set<string>, j: nat): seq<string>
    requires j <= |MatchingIndices(names, sel)|
  {
    var ix := MatchingIndices(names, sel);
    var p := if j == |ix| then |names| else ix[j];
    names[..p] + Without(names[p..], sel)
  }

  /** Removing the entry at the `j - 1`-th matching index takes the loop one match further. */
  lemma RemoveMatchStep(names: seq<string>, sel: set<string>, j: nat)
    requires 0 < j <= |MatchingIndices(names, sel)|
    ensures var q := MatchingIndices(names, sel)[j - 1];
      var cur := FilteredFrom(names, sel, j);
      q < |cur| && cur[..q] + cur[q + 1..] == FilteredFrom(names, sel, j - 1)
  {
    var ix := MatchingIndices(names, sel);
    var p := if j == |ix| then |names| else ix[j];
    var q := ix[j - 1];
    assert q < p;
    NoMatchBetween(names, sel, j - 1);
    RemoveStep(names, sel, q, p);
    assert FilteredFrom(names, sel, j) == names[..p] + Without(names[p..], sel);
    assert FilteredFrom(names, sel, j - 1) == names[..q] + Without(names[q..], sel);
  }

  /** Before any removal the loop's list is the list itself; after the last, it is filtered. */
  lemma FilteredFromEnds(names: seq<string>, sel: set<string>)
    ensures FilteredFrom(names, sel, |MatchingIndices(names, sel)|) == names
    ensures FilteredFrom(names, sel, 0) == Without(names, sel)
  {
    assert names[..|names|] + Without([], sel) == names;
    var ix := MatchingIndices(names, sel);
    if ix != [] {
      NoMatchBefore(names, sel);
      WithoutFrom(names, sel, ix[0]);
    } else {
      MatchingIndicesComplete(names, sel);
      WithoutFrom(names, sel, |names|);
    }
  }

  /** When no entry before `p` matches, filtering the part from `p` on filters the list. */
  lemma WithoutFrom(names: seq<string>, sel: set<string>, p: nat)
    requires p <= |names| && forall i :: 0 <= i < p ==> names[i] !in sel
    ensures names[..p] + Without(names[p..], sel) == Without(names, sel)
  {
    assert names == names[..p] + names[p..];
    WithoutConcat(names[..p], names[p..], sel);
    WithoutNone(names[..p], sel);
  }

  /** The names "add selected" appends: those of `selected` not already in the list,
      in selection order (the membership test uses the list as it was before the call). */
  function Unlisted(selected: seq<string>, names: seq<string>): (r: seq<string>)
    ensures |r| <= |selected|
    ensures forall i :: 0 <= i < |r| ==> r[i] !in names
  {
    if selected == [] then []
    else
      var n := |selected| - 1;
      Unlisted(selected[..n], names) + (if selected[n] in names then [] else [selected[n]])
  }

  /** The appended names are exactly the selected names not already listed. */
  lemma {:induction false} UnlistedMembers(selected: seq<string>, names: seq<string>)
    ensures forall x :: x in Unlisted(selected, names) <==> x in selected && x !in names
  {
    if selected != [] {
      var n := |selected| - 1;
      UnlistedMembers(selected[..n], names);
      LastSplit(selected);
    }
  }

  /** Object names are unique, so a selection holds each name once. */
  predicate Distinct(s: seq<string>) {
    forall i, j :: 0 <= i < j < |s| ==> s[i] != s[j]
  }

  /** The appended names are distinct when the selection is. */
  lemma {:induction false} UnlistedDistinct(selected: seq<string>, names: seq<string>)
    requires Distinct(selected)
    ensures Distinct(Unlisted(selected, names))
  {
    if selected != [] {
      var n := |selected| - 1;
      UnlistedDistinct(selected[..n], names);
      UnlistedMembers(selected[..n], names);
      assert selected[n] !in selected[..n];
    }
  }

  /** Adding the selection keeps the non-empty names distinct. */
  lemma AddSelectedKeepsDistinct(selected: seq<string>, names: seq<string>)
    requires Distinct(selected) && DistinctNonBlank(names)
    ensures DistinctNonBlank(names + Unlisted(selected, names))
  {
    UnlistedDistinct(selected, names);
    UnlistedMembers(selected, names);
    var u := Unlisted(selected, names);
    var r := names + u;
    forall i, j | 0 <= i < j < |r| && r[i] != ""
      ensures r[i] != r[j]
    {
      if j >= |names| {
        assert r[j] == u[j - |names|];
        assert r[j] in u;
        if i >= |names| {
          assert r[i] == u[i - |names|];
        } else {
          assert r[i] in names;
        }
      }
    }
  }

  /** The list after import merges the (already split) lines of a file: each stripped,
      non-empty line not yet in the list is appended, in file order. */
  function Import(names: seq<string>, lines: seq<string>): (r: seq<string>)
    ensures |names| <= |r| && r[..|names|] == names
  {
    if lines == [] then names
    else
      var acc := Import(names, lines[..|lines| - 1]);
      var n := Strip(lines[|lines| - 1]);
      if n != "" && n !in acc then acc + [n] else acc
  }

  /** After import, every non-empty stripped line of the file is in the list. */
  lemma {:induction false} ImportComplete(names: seq<string>, lines: seq<string>)
    ensures forall l :: l in lines && Strip(l) != "" ==> Strip(l) in Import(names, lines)
  {
    if lines != [] {
      var prefix := lines[..|lines| - 1];
      ImportComplete(names, prefix);
      assert lines == prefix + [lines[|lines| - 1]];
    }
  }

  /** Import appends only non-empty stripped lines of the file, each once, none already listed. */
  lemma {:induction false} ImportAddsOnlyNew(names: seq<string>, lines: seq<string>)
    ensures forall k :: |names| <= k < |Import(names, lines)| ==>
      Import(names, lines)[k] != "" && Import(names, lines)[k] !in Import(names, lines)[..k]
      && exists l :: l in lines && Strip(l) == Import(names, lines)[k]
  {
    if lines != [] {
      var prefix := lines[..|lines| - 1];
      var last := lines[|lines| - 1];
      ImportAddsOnlyNew(names, prefix);
      var acc := Import(names, prefix);
      var n := Strip(last);
      var r := Import(names, lines);
      assert r == if n != "" && n !in acc then acc + [n] else acc;
      forall k | |names| <= k < |r|
        ensures r[k] != "" && r[k] !in r[..k] && exists l :: l in lines && Strip(l) == r[k]
      {
        if k < |acc| {
          assert r[k] == acc[k] && r[..k] == acc[..k];
          var l :| l in prefix && Strip(l) == acc[k];
          assert l in lines;
        } else {
          assert r[..k] == acc && r[k] == n;
          assert last in lines;
        }
      }
    }
  }

  /** Importing lines whose names are all listed already (or empty) adds nothing. */
  lemma {:induction false} ImportNothingNew(names: seq<string>, lines: seq<string>)
    requires forall l :: l in lines && Strip(l) != "" ==> Strip(l) in names
    ensures Import(names, lines) == names
  {
    if lines != [] {
      var prefix := lines[..|lines| - 1];
      assert forall l :: l in prefix ==> l in lines;
      ImportNothingNew(names, prefix);
      assert lines[|lines| - 1] in lines;
    }
  }

  /** Importing the same lines a second time adds nothing. */
  lemma ImportIdempotent(names: seq<string>, lines: seq<string>)
    ensures Import(Import(names, lines), lines) == Import(names, lines)
  {
    ImportComplete(names, lines);
    ImportNothingNew(Import(names, lines), lines);
  }

  /** Import keeps the non-empty names distinct. */
  lemma {:induction false} ImportKeepsDistinct(names: seq<string>, lines: seq<string>)
    requires DistinctNonBlank(names)
    ensures DistinctNonBlank(Import(names, lines))
  {
    if lines != [] {
      ImportKeepsDistinct(names, lines[..|lines| - 1]);
    }
  }

  /** The lines that reading an exported file back yields: each entry followed by a
      line terminator (file iteration keeps it; import strips it). This is the file's
      content line by line when no entry contains a line break. */
  function ExportLines(names: seq<string>): (r: seq<string>)
    ensures |r| == |names|
  {
    seq(|names|, i requires 0 <= i < |names| => names[i] + "\n")
  }

  /** Exporting a list of distinct, non-empty, already stripped names and importing the
      file into an empty list reproduces the list in the same order. */
  lemma {:induction false} ExportImportRoundTrip(names: seq<string>)
    requires Distinct(names)
    requires forall i :: 0 <= i < |names| ==> names[i] != "" && Strip(names[i]) == names[i]
    requires forall i :: 0 <= i < |names| ==> '\n' !in names[i] && '\r' !in names[i]
    ensures Import([], ExportLines(names)) == names
  {
    if names != [] {
      var n := |names| - 1;
      ExportImportRoundTrip(names[..n]);
      assert names[n] !in names[..n];
      ExportedLineStep(names);
    }
  }

  /** The last step of the round trip: the file's last line brings back the last entry. */
  lemma ExportedLineStep(names: seq<string>)
    requires names != []
    requires Import([], ExportLines(names[..|names| - 1])) == names[..|names| - 1]
    requires names[|names| - 1] != "" && Strip(names[|names| - 1]) == names[|names| - 1]
    requires names[|names| - 1] !in names[..|names| - 1]
    ensures Import([], ExportLines(names)) == names
  {
    var n := |names| - 1;
    var lines := ExportLines(names);
    assert lines[..n] == ExportLines(names[..n]);
    StripLine(names[n]);
    assert Strip(lines[n]) == names[n];
    assert Import([], lines) == names[..n] + [names[n]];
    LastSplit(names);
  }

  /** A non-empty sequence is its prefix followed by its last element. */
  lemma LastSplit<T>(s: seq<T>)
    requires s != []
    ensures s[..|s| - 1] + [s[|s| - 1]] == s
  {
  }
}
