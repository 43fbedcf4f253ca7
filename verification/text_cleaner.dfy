/**
 * `strip_tags` (alertas.py:32-35): the cleaner applied to an alert's title and summary
 * before they are posted.  It runs in two stages:
 *   1. `" ".join(html.split())` -- split on runs of whitespace, drop empty pieces and join
 *      the pieces with single spaces (`Split`, `Join`, `Collapse`);
 *   2. `re.sub('<.*?>', "", value)` -- delete every non-greedy `<...>` match, left to right
 *      (`CloseAt`, `RemoveTags`).
 * Whitespace goes first, so deleting a tag can leave a leading or doubled space behind:
 * the result is NOT whitespace-normalised and the whole cleaner is not idempotent
 * (`StripTagsLeavesDoubleSpace`, `StripTagsNotIdempotent`).
 */
module TextCleaner {
  import opened Optional

  /** The characters for which Python's `str.isspace()` holds: those `str.split()` with no
      argument splits on. */
  predicate IsSpace(c: char)
  {
    || c == ' '
    || '\t' <= c <= '\r'
    || '\U{1C}' <= c <= '\U{1F}'
    || c == '\U{85}' || c == '\U{A0}' || c == '\U{1680}'
    || '\U{2000}' <= c <= '\U{200A}'
    || c == '\U{2028}' || c == '\U{2029}' || c == '\U{202F}' || c == '\U{205F}' || c == '\U{3000}'
  }

  predicate AllSpace(sp: string)
  {
    forall i :: 0 <= i < |sp| ==> IsSpace(sp[i])
  }

  predicate NoSpace(w: string)
  {
    forall i :: 0 <= i < |w| ==> !IsSpace(w[i])
  }

  /** What `str.split()` produces: non-empty pieces free of whitespace. */
  predicate WellFormedWords(ws: seq<string>)
  {
    forall i :: 0 <= i < |ws| ==> ws[i] != [] && NoSpace(ws[i])
  }

  /** What the first stage promises: every whitespace character is a plain space, none
      leads or trails, and none is followed by another. */
  predicate Collapsed(t: string)
  {
    forall i :: 0 <= i < |t| && IsSpace(t[i]) ==> t[i] == ' ' && 0 < i < |t| - 1 && !IsSpace(t[i + 1])
  }

  /** The text with every whitespace character deleted. */
  function Squeeze(s: string): string
  {
    if s == [] then [] else (if IsSpace(s[0]) then [] else [s[0]]) + Squeeze(s[1..])
  }

  // ---------------------------------------------------------------------------
  // Stage 1: " ".join(html.split())
  // ---------------------------------------------------------------------------

  /** `str.split()` on `s`, where `word` holds the characters of a word already begun. */
  function SplitFrom(s: string, word: string): (ws: seq<string>)
    requires NoSpace(word)
    ensures WellFormedWords(ws)
    decreases |s|
  {
    if s == [] then
      (if word == [] then [] else [word])
    else if IsSpace(s[0]) then
      (if word == [] then SplitFrom(s[1..], []) else [word] + SplitFrom(s[1..], []))
    else
      SplitFrom(s[1..], word + [s[0]])
  }

  function Split(s: string): (ws: seq<string>)
    ensures WellFormedWords(ws)
  {
    SplitFrom(s, [])
  }

  /** `" ".join(ws)`: on words as `str.split()` produces them, the result is collapsed text
      that starts with the first word (`SplitJoin` shows that splitting undoes it). */
  function Join(ws: seq<string>): (r: string)
    ensures WellFormedWords(ws) ==> Collapsed(r)
    ensures ws != [] ==> |r| >= |ws[0]| && r[..|ws[0]|] == ws[0]
  {
    if ws == [] then []
    else if |ws| == 1 then ws[0]
    else
      var j := Join(ws[1..]);
      JoinStepCollapsed(ws[0], j);
      ws[0] + " " + j
  }

  /** Stage 1 of `strip_tags`. */
  function Collapse(s: string): (r: string)
    ensures Collapsed(r)
    ensures |r| <= |s|
    ensures Squeeze(r) == Squeeze(s)
  {
    var ws := Split(s);
    SplitFromLength(s, []);
    SplitFromSqueeze(s, []);
    Join(ws)
  }

  /** A word, one space and non-empty collapsed text make collapsed text. */
  lemma JoinStepCollapsed(w: string, j: string)
    ensures w != [] && NoSpace(w) && j != [] && Collapsed(j) ==> Collapsed(w + " " + j)
  {
  }

  lemma {:induction false} SplitFromLength(s: string, word: string)
    requires NoSpace(word)
    ensures |Join(SplitFrom(s, word))| <= |word| + |s|
    decreases |s|
  {
    if s != [] {
      if IsSpace(s[0]) {
        SplitFromLength(s[1..], []);
      } else {
        SplitFromLength(s[1..], word + [s[0]]);
      }
    }
  }

  lemma {:induction false} SqueezeAppend(a: string, b: string)
    ensures Squeeze(a + b) == Squeeze(a) + Squeeze(b)
  {
    if a != [] {
      var head := if IsSpace(a[0]) then [] else [a[0]];
      assert (a + b)[0] == a[0] && (a + b)[1..] == a[1..] + b;
      assert Squeeze(a + b) == head + Squeeze(a[1..] + b);
      SqueezeAppend(a[1..], b);
      assert Squeeze(a) == head + Squeeze(a[1..]);
    } else {
      assert a + b == b;
    }
  }

  lemma {:induction false} SqueezeNoSpace(w: string)
    requires NoSpace(w)
    ensures Squeeze(w) == w
  {
    if w != [] {
      SqueezeNoSpace(w[1..]);
    }
  }

  lemma SqueezeJoinSpace(word: string, j: string)
    requires NoSpace(word)
    ensures Squeeze(word + " " + j) == word + Squeeze(j)
  {
    var sp := " ";
    assert IsSpace(sp[0]) && sp[1..] == [];
    assert Squeeze(sp) == [];
    SqueezeAppend(word + sp, j);
    SqueezeAppend(word, sp);
    SqueezeNoSpace(word);
    assert word + [] == word;
  }

  lemma {:induction false} SplitFromSqueeze(s: string, word: string)
    requires NoSpace(word)
    ensures Squeeze(Join(SplitFrom(s, word))) == word + Squeeze(s)
    decreases |s|
  {
    if s == [] {
      SqueezeNoSpace(word);
    } else if IsSpace(s[0]) {
      var rest := SplitFrom(s[1..], []);
      SplitFromSqueeze(s[1..], []);
      if word != [] {
        SqueezeNoSpace(word);
        if rest != [] {
          assert Join([word] + rest) == word + " " + Join(rest);
          SqueezeJoinSpace(word, Join(rest));
        }
      }
    } else {
      SplitFromSqueeze(s[1..], word + [s[0]]);
    }
  }

  /** A word glued to the text ahead of it is carried into the word being built. */
  lemma {:induction false} SplitFromWord(w: string, t: string, word: string)
    requires NoSpace(w) && NoSpace(word)
    ensures SplitFrom(w + t, word) == SplitFrom(t, word + w)
    decreases |w|
  {
    if w != [] {
      assert (w + t)[0] == w[0] && (w + t)[1..] == w[1..] + t;
      assert !IsSpace(w[0]) && NoSpace(w[1..]) && NoSpace(word + [w[0]]);
      assert SplitFrom(w + t, word) == SplitFrom(w[1..] + t, word + [w[0]]);
      SplitFromWord(w[1..], t, word + [w[0]]);
      assert word + [w[0]] + w[1..] == word + w;
    } else {
      assert w + t == t && word + w == word;
    }
  }

  /** A run of whitespace ends the word being built and is otherwise skipped. */
  lemma {:induction false} SplitFromSpaces(sp: string, t: string, word: string)
    requires sp != [] && AllSpace(sp)
    requires NoSpace(word)
    ensures SplitFrom(sp + t, word) == (if word == [] then [] else [word]) + SplitFrom(t, [])
    decreases |sp|
  {
    assert (sp + t)[0] == sp[0] && (sp + t)[1..] == sp[1..] + t;
    if |sp| > 1 {
      SplitFromSpaces(sp[1..], t, []);
    } else {
      assert sp[1..] + t == t;
    }
  }

  /** Round trip: splitting the joined words gives the words back. */
  lemma {:induction false} SplitJoin(ws: seq<string>)
    requires WellFormedWords(ws)
    ensures Split(Join(ws)) == ws
  {
    if ws == [] {
    } else if |ws| == 1 {
      SplitFromWord(ws[0], [], []);
      assert ws[0] + [] == ws[0] && [] + ws[0] == ws[0];
    } else {
      var w, rest := ws[0], ws[1..];
      SplitJoin(rest);
      var j := Join(rest);
      assert Join(ws) == w + (" " + j);
      SplitFromWord(w, " " + j, []);
      assert [] + w == w;
      assert (" " + j)[1..] == j;
      assert SplitFrom(" " + j, w) == [w] + SplitFrom(j, []);
    }
  }

  /** In collapsed text, a space after a word is a single plain space followed by more text,
      and the text after it is collapsed too. */
  lemma CollapsedAfterSpace(word: string, t: string)
    requires NoSpace(word) && Collapsed(word + t) && t != [] && IsSpace(t[0])
    ensures t[0] == ' ' && word != [] && |t| > 1 && Collapsed(t[1..])
  {
    var u := word + t;
    assert u[|word|] == t[0];
    var t' := t[1..];
    forall i | 0 <= i < |t'| && IsSpace(t'[i])
      ensures t'[i] == ' ' && 0 < i < |t'| - 1 && !IsSpace(t'[i + 1])
    {
      assert t'[i] == u[|word| + 1 + i];
      if i + 1 < |t'| {
        assert t'[i + 1] == u[|word| + 2 + i];
      }
    }
    assert t'[0] == u[|word| + 1];
  }

  /** A finished word, one space and text that splits and joins back to itself. */
  lemma JoinAfterSpace(t: string, word: string)
    requires NoSpace(word) && word != [] && |t| > 1 && t[0] == ' '
    requires Join(SplitFrom(t[1..], [])) == t[1..]
    ensures Join(SplitFrom(t, word)) == word + t
  {
  }

  /** On text whose spaces are already collapsed, splitting and joining again changes nothing. */
  lemma {:induction false} SplitFromCollapsed(t: string, word: string)
    requires NoSpace(word) && Collapsed(word + t)
    ensures Join(SplitFrom(t, word)) == word + t
    decreases |t|
  {
    if t == [] {
      assert word + t == word;
    } else if IsSpace(t[0]) {
      CollapsedAfterSpace(word, t);
      assert [] + t[1..] == t[1..];
      SplitFromCollapsed(t[1..], []);
      JoinAfterSpace(t, word);
    } else {
      assert word + [t[0]] + t[1..] == word + t;
      SplitFromCollapsed(t[1..], word + [t[0]]);
    }
  }

  /** The first stage leaves text alone exactly when that text is already collapsed. */
  lemma {:induction false} CollapseFixpoint(t: string)
    ensures Collapse(t) == t <==> Collapsed(t)
  {
    if Collapsed(t) {
      assert [] + t == t;
      SplitFromCollapsed(t, []);
    }
  }

  /** The first stage is idempotent. */
  lemma {:induction false} CollapseIdempotent(s: string)
    ensures Collapse(Collapse(s)) == Collapse(s)
  {
    CollapseFixpoint(Collapse(s));
  }

  /** The first stage keeps the words of the text: splitting it again gives the same words. */
  lemma {:induction false} CollapseKeepsWords(s: string)
    ensures Split(Collapse(s)) == Split(s)
  {
    SplitJoin(Split(s));
  }

  // ---------------------------------------------------------------------------
  // Stage 2: re.sub('<.*?>', "", value)
  // ---------------------------------------------------------------------------

  /** Where the non-greedy `<.*?>` closes when its `<` stands just before `t`: the first
      `>` of `t`, provided no newline comes before it (`.` does not match a newline). */
  function CloseAt(t: string): (r: Option<nat>)
    ensures r.Some? ==> r.value < |t| && t[r.value] == '>'
    ensures r.Some? ==> forall j :: 0 <= j < r.value ==> t[j] != '>' && t[j] != '\n'
    ensures r.None? ==> forall j :: 0 <= j < |t| && t[j] == '>' ==> exists m :: 0 <= m < j && t[m] == '\n'
  {
    if t == [] then None
    else if t[0] == '>' then Some(0)
    else if t[0] == '\n' then None
    else
      match CloseAt(t[1..])
      case None =>
        assert forall j :: 0 <= j < |t| && t[j] == '>' ==> exists m :: 0 <= m < j && t[m] == '\n' by {
          forall j | 0 <= j < |t| && t[j] == '>'
            ensures exists m :: 0 <= m < j && t[m] == '\n'
          {
            assert t[1..][j - 1] == '>';
            var m :| 0 <= m < j - 1 && t[1..][m] == '\n';
            assert t[m + 1] == '\n';
          }
        }
        None
      case Some(k) => Some(k + 1)
  }

  /** A `<` at index `i` of `s` that opens no tag. */
  predicate Unmatched(s: string, i: int)
    requires 0 <= i < |s|
  {
    s[i] == '<' ==> CloseAt(s[i + 1..]).None?
  }

  /** Text in which the pattern `<.*?>` matches nowhere. */
  predicate NoTag(s: string)
  {
    forall i :: 0 <= i < |s| ==> Unmatched(s, i)
  }

  /** Stage 2 of `strip_tags`: scan left to right; a `<` that opens a tag is deleted up to
      and including its closing `>`, and the scan resumes after it; any other character is
      kept. */
  function RemoveTags(s: string): (r: string)
    ensures |r| <= |s|
    decreases |s|
  {
    if s == [] then []
    else if s[0] == '<' && CloseAt(s[1..]).Some? then RemoveTags(s[CloseAt(s[1..]).value + 2..])
    else [s[0]] + RemoveTags(s[1..])
  }

  /** Deleting tags from text whose first `>` comes after a newline (or that has none) cannot
      bring a `>` before that newline. */
  lemma {:induction false} RemoveTagsKeepsUnclosed(t: string)
    requires CloseAt(t).None?
    ensures CloseAt(RemoveTags(t)).None?
    decreases |t|
  {
    if t != [] && t[0] != '\n' {
      assert t[0] != '>';
      assert CloseAt(t[1..]).None?;
      RemoveTagsKeepsUnclosed(t[1..]);
      assert RemoveTags(t) == [t[0]] + RemoveTags(t[1..]);
      assert ([t[0]] + RemoveTags(t[1..]))[1..] == RemoveTags(t[1..]);
    }
  }

  /** After the second stage the pattern matches nowhere. */
  lemma {:induction false} RemoveTagsNoTag(s: string)
    ensures NoTag(RemoveTags(s))
    decreases |s|
  {
    if s != [] {
      if s[0] == '<' && CloseAt(s[1..]).Some? {
        RemoveTagsNoTag(s[CloseAt(s[1..]).value + 2..]);
      } else {
        var rest := RemoveTags(s[1..]);
        RemoveTagsNoTag(s[1..]);
        var r := [s[0]] + rest;
        assert RemoveTags(s) == r;
        forall i | 0 <= i < |r|
          ensures Unmatched(r, i)
        {
          if i == 0 {
            assert r[1..] == rest;
            if s[0] == '<' {
              RemoveTagsKeepsUnclosed(s[1..]);
            }
          } else {
            assert r[i] == rest[i - 1] && r[i + 1..] == rest[i..];
            assert Unmatched(rest, i - 1);
          }
        }
      }
    }
  }

  /** The second stage leaves text alone exactly when the pattern matches nowhere in it. */
  lemma {:induction false} RemoveTagsFixpoint(s: string)
    ensures RemoveTags(s) == s <==> NoTag(s)
    decreases |s|
  {
    RemoveTagsNoTag(s);
    if NoTag(s) && s != [] {
      assert Unmatched(s, 0);
      forall i | 0 <= i < |s| - 1
        ensures Unmatched(s[1..], i)
      {
        assert Unmatched(s, i + 1);
        assert s[1..][i + 1..] == s[i + 2..];
      }
      RemoveTagsFixpoint(s[1..]);
    }
  }

  /** The second stage alone is idempotent. */
  lemma {:induction false} RemoveTagsIdempotent(s: string)
    ensures RemoveTags(RemoveTags(s)) == RemoveTags(s)
  {
    RemoveTagsNoTag(s);
    RemoveTagsFixpoint(RemoveTags(s));
  }

  /** The non-greedy match never reaches into a tail that holds no `>`. */
  lemma {:induction false} CloseAtAppend(u: string, t: string)
    requires '>' !in t
    ensures CloseAt(u + t) == CloseAt(u)
    decreases |u|
  {
    if u == [] {
      assert u + t == t;
    } else {
      assert (u + t)[1..] == u[1..] + t;
      CloseAtAppend(u[1..], t);
    }
  }

  /** Text after the last `>` passes the second stage unchanged: in particular a `<` with no
      `>` after it survives. */
  lemma {:induction false} RemoveTagsAppend(u: string, t: string)
    requires '>' !in t
    ensures RemoveTags(u + t) == RemoveTags(u) + t
    decreases |u|
  {
    if u == [] {
      assert u + t == t && [] + t == t;
      RemoveTagsNoClose(t);
    } else {
      assert (u + t)[0] == u[0] && (u + t)[1..] == u[1..] + t;
      CloseAtAppend(u[1..], t);
      if u[0] == '<' && CloseAt(u[1..]).Some? {
        var d := CloseAt(u[1..]).value + 2;
        assert (u + t)[d..] == u[d..] + t;
        RemoveTagsAppend(u[d..], t);
      } else {
        RemoveTagsAppend(u[1..], t);
        assert [u[0]] + (RemoveTags(u[1..]) + t) == ([u[0]] + RemoveTags(u[1..])) + t;
      }
    }
  }

  /** Text holding no `>` holds no tag, so the second stage keeps all of it. */
  lemma {:induction false} RemoveTagsNoClose(s: string)
    requires '>' !in s
    ensures RemoveTags(s) == s
    decreases |s|
  {
    if s != [] {
      assert '>' !in s[1..];
      RemoveTagsNoClose(s[1..]);
      assert s == [s[0]] + s[1..];
    }
  }

  /** Text without `<` passes the second stage unchanged. */
  lemma {:induction false} RemoveTagsPlain(w: string, t: string)
    requires '<' !in w
    ensures RemoveTags(w + t) == w + RemoveTags(t)
    decreases |w|
  {
    if w != [] {
      assert (w + t)[0] == w[0] && (w + t)[1..] == w[1..] + t;
      RemoveTagsPlain(w[1..], t);
      assert [w[0]] + (w[1..] + RemoveTags(t)) == w + RemoveTags(t);
    } else {
      assert w + t == t;
    }
  }

  /** A tag `<x>` with no `>` or newline inside is deleted whole. */
  lemma {:induction false} RemoveTagsTag(x: string, t: string)
    requires '>' !in x && '\n' !in x
    ensures RemoveTags("<" + x + ">" + t) == RemoveTags(t)
    decreases |x|
  {
    var u := "<" + x + ">" + t;
    CloseAtTag(x, t);
    assert u[1..] == x + ">" + t;
    assert u[|x| + 2..] == t;
  }

  lemma {:induction false} CloseAtTag(x: string, t: string)
    requires '>' !in x && '\n' !in x
    ensures CloseAt(x + ">" + t) == Some(|x|)
    decreases |x|
  {
    var u := x + ">" + t;
    if x == [] {
      assert u[0] == '>';
    } else {
      assert u[0] == x[0] && u[1..] == x[1..] + ">" + t;
      CloseAtTag(x[1..], t);
    }
  }

  /** Every index of `ks` moved `d` places on. */
  function Shift(ks: seq<nat>, d: nat): seq<nat>
  {
    seq(|ks|, j requires 0 <= j < |ks| => ks[j] + d)
  }

  /** The indices of `s` whose characters the second stage keeps, in order. */
  ghost function Survivors(s: string): seq<nat>
    decreases |s|
  {
    if s == [] then []
    else if s[0] == '<' && CloseAt(s[1..]).Some? then
      var d := CloseAt(s[1..]).value + 2;
      Shift(Survivors(s[d..]), d)
    else [0] + Shift(Survivors(s[1..]), 1)
  }

  /** `ks` lists, in increasing order, indices of `s` holding the characters of `r`, and each
      `<` among them opened no tag in `s`. */
  ghost predicate Tracks(s: string, r: string, ks: seq<nat>)
  {
    && |ks| == |r|
    && (forall j :: 0 <= j < |ks| ==> ks[j] < |s| && s[ks[j]] == r[j] && Unmatched(s, ks[j]))
    && (forall j, l :: 0 <= j < l < |ks| ==> ks[j] < ks[l])
  }

  lemma TracksShift(s: string, d: nat, r: string, ks: seq<nat>)
    requires d <= |s| && Tracks(s[d..], r, ks)
    ensures Tracks(s, r, Shift(ks, d))
  {
    var t, ks' := s[d..], Shift(ks, d);
    forall j | 0 <= j < |ks'|
      ensures ks'[j] < |s| && s[ks'[j]] == r[j] && Unmatched(s, ks'[j])
    {
      var k := ks[j];
      assert ks'[j] == k + d && s[k + d] == t[k];
      assert Unmatched(t, k);
      assert s[k + d + 1..] == t[k + 1..];
    }
  }

  lemma TracksCons(s: string, r: string, ks: seq<nat>)
    requires s != [] && Unmatched(s, 0) && Tracks(s, r, ks)
    requires forall j :: 0 <= j < |ks| ==> ks[j] > 0
    ensures Tracks(s, [s[0]] + r, [0] + ks)
  {
  }

  /** The second stage's result is the input with some characters deleted, in order, and every
      `<` it keeps opened no tag in the input. */
  lemma {:induction false} SurvivorsSound(s: string)
    ensures Tracks(s, RemoveTags(s), Survivors(s))
    decreases |s|
  {
    if s != [] {
      if s[0] == '<' && CloseAt(s[1..]).Some? {
        var d := CloseAt(s[1..]).value + 2;
        SurvivorsSound(s[d..]);
        TracksShift(s, d, RemoveTags(s[d..]), Survivors(s[d..]));
      } else {
        var rt, kt := RemoveTags(s[1..]), Survivors(s[1..]);
        SurvivorsSound(s[1..]);
        TracksShift(s, 1, rt, kt);
        TracksCons(s, rt, Shift(kt, 1));
      }
    }
  }

  // ---------------------------------------------------------------------------
  // strip_tags
  // ---------------------------------------------------------------------------

  /** `strip_tags(html)` */
  function StripTags(html: string): (r: string)
    ensures |r| <= |html|
  {
    RemoveTags(Collapse(html))
  }

  /** The cleaner's output is a single line, and no `<` in it has a `>` anywhere after it. */
  lemma StripTagsClean(html: string)
    ensures '\n' !in StripTags(html)
    ensures var r := StripTags(html);
      forall i :: 0 <= i < |r| && r[i] == '<' ==> '>' !in r[i + 1..]
  {
    var value := Collapse(html);
    NoNewlineRemoveTags(value);
    RemoveTagsNoTag(value);
    NoNewlineNoTag(RemoveTags(value));
  }

  /** Collapsed text holds no newline, and the second stage adds none. */
  lemma {:induction false} NoNewlineRemoveTags(value: string)
    requires Collapsed(value)
    ensures '\n' !in RemoveTags(value)
  {
    SurvivorsSound(value);
    var ks, r := Survivors(value), RemoveTags(value);
    forall j | 0 <= j < |r|
      ensures r[j] != '\n'
    {
      assert value[ks[j]] == r[j];
    }
  }

  /** Without a newline, a `<` opens a tag whenever any `>` follows it. */
  lemma NoNewlineNoTag(r: string)
    requires '\n' !in r && NoTag(r)
    ensures forall i :: 0 <= i < |r| && r[i] == '<' ==> '>' !in r[i + 1..]
  {
    forall i | 0 <= i < |r| && r[i] == '<'
      ensures '>' !in r[i + 1..]
    {
      assert Unmatched(r, i);
      var t := r[i + 1..];
      forall j | 0 <= j < |t|
        ensures t[j] != '>'
      {
        assert t[j] == r[i + 1 + j];
        forall m | 0 <= m < j
          ensures t[m] != '\n'
        {
          assert t[m] == r[i + 1 + m];
        }
      }
    }
  }

  // ---------------------------------------------------------------------------
  // Worked examples
  // ---------------------------------------------------------------------------

  /** Two words between runs of whitespace split into exactly those two words. */
  lemma SplitTwoWords(lead: string, w1: string, gap: string, w2: string, tail: string)
    requires AllSpace(lead) && gap != [] && AllSpace(gap) && AllSpace(tail)
    requires w1 != [] && NoSpace(w1) && w2 != [] && NoSpace(w2)
    ensures Split(lead + (w1 + (gap + (w2 + tail)))) == [w1, w2]
  {
    var rest := w1 + (gap + (w2 + tail));
    if lead != [] {
      SplitFromSpaces(lead, rest, []);
    } else {
      assert lead + rest == rest;
    }
    assert [] + w1 == w1 && [] + w2 == w2;
    SplitFromWord(w1, gap + (w2 + tail), []);
    SplitFromSpaces(gap, w2 + tail, w1);
    SplitFromWord(w2, tail, []);
    if tail != [] {
      assert tail + [] == tail;
      SplitFromSpaces(tail, [], w2);
    }
  }

  /** Two tags around tag-free text are deleted, and the text after them kept. */
  lemma RemoveTwoTags(x: string, w: string, y: string, t: string)
    requires '>' !in x && '\n' !in x && '>' !in y && '\n' !in y && '<' !in w && '<' !in t
    ensures RemoveTags("<" + x + ">" + (w + ("<" + y + ">" + t))) == w + t
  {
    RemoveTagsTag(x, w + ("<" + y + ">" + t));
    RemoveTagsPlain(w, "<" + y + ">" + t);
    RemoveTagsTag(y, t);
    RemoveTagsPlain(t, []);
    assert t + [] == t;
  }

  /** The words of the cleaner on a worked example. */
  lemma ExampleSplit()
    ensures Split("  <b>Alert</b>\n  now  ") == ["<b>Alert</b>", "now"]
  {
    var lead, w1, gap, w2, tail := "  ", "<b>Alert</b>", "\n  ", "now", "  ";
    assert lead + (w1 + (gap + (w2 + tail))) == "  <b>Alert</b>\n  now  ";
    assert NoSpace(w1) && NoSpace(w2);
    SplitTwoWords(lead, w1, gap, w2, tail);
  }

  /** Stage one of the cleaner on a worked example. */
  lemma ExampleCollapse()
    ensures Collapse("  <b>Alert</b>\n  now  ") == "<b>Alert</b> now"
  {
    assert Join(["<b>Alert</b>", "now"]) == "<b>Alert</b>" + " " + "now" == "<b>Alert</b> now";
    ExampleSplit();
  }

  /** Stage two of the cleaner on a worked example. */
  lemma ExampleRemoveTags()
    ensures RemoveTags("<b>Alert</b> now") == "Alert now"
  {
    var w, t := "Alert", " now";
    assert "<b>Alert</b> now" == "<" + "b" + ">" + (w + ("<" + "/b" + ">" + t));
    assert w + t == "Alert now";
    RemoveTwoTags("b", w, "/b", t);
  }

  /** The cleaner on a worked example. */
  lemma StripTagsExample()
    ensures StripTags("  <b>Alert</b>\n  now  ") == "Alert now"
  {
    ExampleCollapse();
    ExampleRemoveTags();
  }

  /** `"a <b> c"` is already collapsed. */
  lemma ExampleCollapsed()
    ensures Collapse("a <b> c") == "a <b> c"
  {
    var ws := ["a", "<b>", "c"];
    assert NoSpace(ws[0]) && NoSpace(ws[1]) && NoSpace(ws[2]);
    assert ws[1..] == ["<b>", "c"] && ws[1..][1..] == ["c"];
    assert Join(["<b>", "c"]) == "<b>" + " " + "c" == "<b> c";
    assert Join(ws) == "a" + " " + "<b> c" == "a <b> c";
    SplitJoin(ws);
  }

  /** Stage two deletes the tag and keeps the spaces on both sides of it. */
  lemma ExampleDoubleSpace()
    ensures RemoveTags("a <b> c") == "a  c"
  {
    var t := " c";
    assert "a <b> c" == "a " + ("<" + "b" + ">" + t);
    assert t + [] == t && "a " + t == "a  c";
    RemoveTagsPlain("a ", "<" + "b" + ">" + t);
    RemoveTagsTag("b", t);
    RemoveTagsPlain(t, []);
  }

  /** Deleting a tag that stood between two words leaves both of their spaces, so the
      cleaner's output need not be collapsed. */
  lemma StripTagsLeavesDoubleSpace()
    ensures StripTags("a <b> c") == "a  c" && !Collapsed("a  c")
  {
    ExampleCollapsed();
    ExampleDoubleSpace();
    assert IsSpace("a  c"[1]) && IsSpace("a  c"[2]);
  }

  /** Cleaning the doubled space again collapses it. */
  lemma StripTagsOfDoubleSpace()
    ensures StripTags("a  c") == "a c"
  {
    var w1, gap, w2 := "a", "  ", "c";
    assert [] + (w1 + (gap + (w2 + []))) == "a  c";
    assert NoSpace(w1) && NoSpace(w2);
    SplitTwoWords([], w1, gap, w2, []);
    assert Join([w1, w2]) == w1 + " " + w2 == "a c";
    RemoveTagsPlain("a c", []);
    assert "a c" + [] == "a c";
  }

  /** Cleaning twice is not the same as cleaning once. */
  lemma StripTagsNotIdempotent()
    ensures StripTags(StripTags("a <b> c")) != StripTags("a <b> c")
  {
    StripTagsLeavesDoubleSpace();
    StripTagsOfDoubleSpace();
    assert |"a c"| != |"a  c"|;
  }
}
