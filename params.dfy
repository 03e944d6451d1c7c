/** The request-parameter parser of the hurl command-line client: a parameter such
    as `key=value` (form or query data) or `key:value` (a header) is split at its
    first separator that is not escaped by a backslash. The input is first cut into
    runs of text and escape tokens; every character is one position (ASCII). */
module Params {
  import opened Wrappers

  /** The characters that a backslash escapes: `\\`, `\=` and `\:`. */
  predicate Special(c: char) {
    c == '\\' || c == '=' || c == ':'
  }

  /** A token of a parameter: a run of ordinary text, or an escaped character. */
  datatype Token = Text(s: string) | Escape(c: char)

  /** The parameter text a token stands for: an escape is written as a backslash
      followed by the escaped character. */
  function RenderToken(t: Token): (out: string)
    ensures |out| > 0 || t == Text([])
  {
    match t
    case Text(s) => s
    case Escape(c) => ['\\', c]
  }

  /** The parameter text of a sequence of tokens. */
  function Render(ts: seq<Token>): (out: string)
  {
    if ts == [] then [] else Render(ts[..|ts| - 1]) + RenderToken(ts[|ts| - 1])
  }

  /** Rendering distributes over concatenation of token sequences. */
  lemma {:induction false} RenderAppend(a: seq<Token>, b: seq<Token>)
    ensures Render(a + b) == Render(a) + Render(b)
    decreases |b|
  {
    if b != [] {
      var n := |b| - 1;
      assert (a + b)[..|a + b| - 1] == a + b[..n];
      assert (a + b)[|a + b| - 1] == b[n];
      RenderAppend(a, b[..n]);
    } else {
      assert a + b == a;
    }
  }

  /** The pending text run, emitted as a token only when it is not empty. */
  function Flush(run: string): seq<Token> {
    if run == [] then [] else [Text(run)]
  }

  /** The tokens of src from position end on, when the text run src[start..end]
      is still pending: ordinary characters extend the run; a backslash followed
      by a special character ends the run and becomes an escape; a backslash
      followed by any other character stays in the run together with that
      character; a lone backslash at the very end also stays in the run. */
  function Lex(src: string, start: int, end: int): (ts: seq<Token>)
    requires 0 <= start <= end <= |src|
    decreases |src| - end
  {
    if end == |src| then Flush(src[start..end])
    else if src[end] != '\\' then Lex(src, start, end + 1)
    else if end + 1 == |src| then [Text(src[start..])]
    else if Special(src[end + 1]) then Flush(src[start..end]) + [Escape(src[end + 1])] + Lex(src, end + 2, end + 2)
    else Lex(src, start, end + 2)
  }

  /** The tokens of a whole parameter. */
  function Gather(src: string): seq<Token> {
    Lex(src, 0, 0)
  }

  /** Cut src into text runs and escapes, scanning it once from left to right. */
  method GatherEscapes(src: string) returns (tokens: seq<Token>)
    ensures tokens == Gather(src)
  {
    tokens := [];
    var start := 0;
    var end := 0;
    // Position of the character iterator: every character is one position wide.
    var next := 0;
    while true
      invariant 0 <= start <= end == next <= |src|
      invariant tokens + Lex(src, start, end) == Gather(src)
      decreases |src| - next
    {
      if next == |src| {
        if start != end {
          tokens := tokens + [Text(src[start..end])];
        }
        return;
      }
      var c := src[next];
      next := next + 1;
      if c != '\\' {
        end := end + 1;
        continue;
      }
      if next == |src| {
        assert src[start..end + 1] == src[start..];
        tokens := tokens + [Text(src[start..end + 1])];
        return;
      }
      var d := src[next];
      next := next + 1;
      if d == '\\' || d == '=' || d == ':' {
        ghost var emitted := tokens + Flush(src[start..end]) + [Escape(d)];
        assert tokens + Lex(src, start, end) == emitted + Lex(src, end + 2, end + 2);
        if start != end {
          tokens := tokens + [Text(src[start..end])];
        }
        tokens := tokens + [Escape(d)];
        assert tokens == emitted;
        end := end + 2;
        start := end;
      } else {
        end := end + 2;
      }
    }
  }

  /** A single token renders as its own text. */
  lemma RenderOne(t: Token)
    ensures Render([t]) == RenderToken(t)
  {
    assert [t][..0] == [];
  }

  /** The pending run renders as itself whether or not it is emitted. */
  lemma RenderFlush(run: string)
    ensures Render(Flush(run)) == run
  {
    if run != [] {
      RenderOne(Text(run));
    }
  }

  /** The text before a backslash, the escape pair, and the rest of src join back
      into src. */
  lemma EscapeJoin(src: string, start: int, end: int)
    requires 0 <= start <= end && end + 1 < |src| && src[end] == '\\'
    ensures src[start..end] + ['\\', src[end + 1]] + src[end + 2..] == src[start..]
  {
    assert src[start..] == src[start..end] + [src[end], src[end + 1]] + src[end + 2..];
  }

  /** Rendering the tokens from position end on gives back src from the
      start of the pending run on. */
  lemma {:induction false} RenderLex(src: string, start: int, end: int)
    requires 0 <= start <= end <= |src|
    ensures Render(Lex(src, start, end)) == src[start..]
    decreases |src| - end
  {
    if end == |src| {
      RenderFlush(src[start..end]);
    } else if src[end] != '\\' {
      RenderLex(src, start, end + 1);
    } else if end + 1 == |src| {
      RenderOne(Text(src[start..]));
    } else if Special(src[end + 1]) {
      var f, e, l := Flush(src[start..end]), [Escape(src[end + 1])], Lex(src, end + 2, end + 2);
      calc {
        Render(Lex(src, start, end));
        Render(f + e + l);
        { RenderAppend(f + e, l); }
        Render(f + e) + Render(l);
        { RenderAppend(f, e); }
        Render(f) + Render(e) + Render(l);
        { RenderFlush(src[start..end]); RenderOne(Escape(src[end + 1])); RenderLex(src, end + 2, end + 2); }
        src[start..end] + ['\\', src[end + 1]] + src[end + 2..];
        { EscapeJoin(src, start, end); }
        src[start..];
      }
    } else {
      RenderLex(src, start, end + 2);
    }
  }

  /** Round trip: the tokens of src render back to src. */
  lemma GatherRenders(src: string)
    ensures Render(Gather(src)) == src
  {
    RenderLex(src, 0, 0);
  }

  /** Every backslash of s, except one in the last position, is followed by a
      character it does not escape. */
  predicate Plain(s: string) {
    forall i :: 0 <= i < |s| - 1 && s[i] == '\\' ==> !Special(s[i + 1])
  }

  /** A token as the scanner emits it: a text run is non-empty and plain, an
      escape is of a special character. */
  predicate WellToken(t: Token) {
    match t
    case Text(s) => s != [] && Plain(s)
    case Escape(c) => Special(c)
  }

  /** Whether a text run ends in a backslash, which would pair with the character
      after it. */
  predicate OpenEnded(s: string) {
    s != [] && s[|s| - 1] == '\\'
  }

  /** A token list as the scanner emits it: every token is well formed, and a text
      run that is not the last token is followed by an escape and does not end in
      a backslash, so no escape pair is split across tokens and no two runs touch. */
  predicate WellTokens(ts: seq<Token>) {
    && (forall k :: 0 <= k < |ts| ==> WellToken(ts[k]))
    && (forall k :: 0 <= k < |ts| - 1 && ts[k].Text? ==> ts[k + 1].Escape? && !OpenEnded(ts[k].s))
  }

  /** Joining well-formed lists keeps them well formed when the join point is
      allowed: a text run at the end of a is followed by an escape and does not
      end in a backslash. */
  lemma WellTokensAppend(a: seq<Token>, b: seq<Token>)
    requires WellTokens(a) && WellTokens(b)
    requires a != [] && b != [] && a[|a| - 1].Text? ==> b[0].Escape? && !OpenEnded(a[|a| - 1].s)
    ensures WellTokens(a + b)
  {
    var ab := a + b;
    forall k | 0 <= k < |ab| ensures WellToken(ab[k]) {
      if k >= |a| {
        assert ab[k] == b[k - |a|];
      }
    }
    forall k | 0 <= k < |ab| - 1 && ab[k].Text? ensures ab[k + 1].Escape? && !OpenEnded(ab[k].s) {
      if k >= |a| {
        assert ab[k] == b[k - |a|] && ab[k + 1] == b[k + 1 - |a|];
      } else if k == |a| - 1 {
        assert ab[k + 1] == b[0];
      }
    }
  }

  /** The pending run src[start..end] as the scanner builds it: plain, and not
      ending in a backslash (a backslash always joins the run together with the
      character after it). */
  predicate CleanRun(src: string, start: int, end: int)
    requires 0 <= start <= end <= |src|
  {
    && (forall i :: start <= i < end - 1 && src[i] == '\\' ==> !Special(src[i + 1]))
    && (start < end ==> src[end - 1] != '\\')
  }

  /** A clean run, emitted as text, is plain. */
  lemma CleanRunPlain(src: string, start: int, end: int)
    requires 0 <= start <= end <= |src| && CleanRun(src, start, end)
    ensures Plain(src[start..end])
  {
    var s := src[start..end];
    forall i | 0 <= i < |s| - 1 && s[i] == '\\' ensures !Special(s[i + 1]) {
      assert s[i] == src[start + i] && s[i + 1] == src[start + i + 1];
    }
  }

  /** The run completed by a final lone backslash is plain. */
  lemma LoneBackslashPlain(src: string, start: int)
    requires 0 <= start < |src| && CleanRun(src, start, |src| - 1)
    ensures Plain(src[start..])
  {
    var s := src[start..];
    forall i | 0 <= i < |s| - 1 && s[i] == '\\' ensures !Special(s[i + 1]) {
      assert s[i] == src[start + i] && s[i + 1] == src[start + i + 1];
    }
  }

  /** The scanner emits only well-formed tokens. */
  lemma {:induction false} LexWellTokens(src: string, start: int, end: int)
    requires 0 <= start <= end <= |src| && CleanRun(src, start, end)
    ensures WellTokens(Lex(src, start, end))
    decreases |src| - end
  {
    if end == |src| {
      CleanRunPlain(src, start, end);
    } else if src[end] != '\\' {
      LexWellTokens(src, start, end + 1);
    } else if end + 1 == |src| {
      LoneBackslashPlain(src, start);
      assert WellToken(Text(src[start..]));
    } else if Special(src[end + 1]) {
      CleanRunPlain(src, start, end);
      LexWellTokens(src, end + 2, end + 2);
      var f, e := Flush(src[start..end]), [Escape(src[end + 1])];
      assert WellTokens(f) && WellTokens(e);
      assert f != [] ==> f[|f| - 1].s == src[start..end];
      WellTokensAppend(f, e);
      WellTokensAppend(f + e, Lex(src, end + 2, end + 2));
    } else {
      LexWellTokens(src, start, end + 2);
    }
  }

  /** The tokens of any parameter: no text run is empty, an escape is only ever
      made of `\\`, `\=` or `\:`, and a backslash inside a text run is followed
      by a character it does not escape (or ends the input). */
  lemma GatherWellTokens(src: string)
    ensures WellTokens(Gather(src))
  {
    LexWellTokens(src, 0, 0);
  }

  /** Rendering a non-empty list: its first token, then the rest. */
  lemma RenderHead(ts: seq<Token>)
    requires ts != []
    ensures Render(ts) == RenderToken(ts[0]) + Render(ts[1..])
  {
    RenderAppend([ts[0]], ts[1..]);
    RenderOne(ts[0]);
    assert ts == [ts[0]] + ts[1..];
  }

  /** A well-formed list renders as nothing exactly when it is empty. */
  lemma RenderEmpty(ts: seq<Token>)
    requires WellTokens(ts)
    ensures ts == [] <==> Render(ts) == []
  {
    if ts != [] {
      RenderHead(ts);
    }
  }

  /** s is a text run at the head of r: a plain prefix of r that is either all of
      r or followed by a backslash and a special character, and then does not end
      in a backslash. */
  predicate RunAt(s: string, r: string) {
    && s != [] && Plain(s) && |s| <= |r| && r[..|s|] == s
    && (|r| == |s| || (|s| + 1 < |r| && r[|s|] == '\\' && Special(r[|s| + 1]) && !OpenEnded(s)))
  }

  /** A well-formed list that starts with a text run renders as that run followed
      by nothing or by the escape after it. */
  lemma TextHead(ts: seq<Token>)
    requires WellTokens(ts) && ts != [] && ts[0].Text?
    ensures RunAt(ts[0].s, Render(ts))
  {
    RenderHead(ts);
    if |ts| > 1 {
      RenderHead(ts[1..]);
      assert ts[1..][0] == ts[1];
    } else {
      assert ts[1..] == [];
    }
  }

  /** A plain run at the head of r, read on r itself: no backslash inside it
      escapes the character after it, and it ends in a backslash exactly when r
      has one at that position. */
  lemma PlainPrefix(s: string, r: string)
    requires |s| <= |r| && r[..|s|] == s && Plain(s)
    ensures forall i :: 0 <= i < |s| - 1 && r[i] == '\\' ==> !Special(r[i + 1])
    ensures OpenEnded(s) <==> s != [] && r[|s| - 1] == '\\'
  {
    forall i | 0 <= i < |s| - 1 && r[i] == '\\' ensures !Special(r[i + 1]) {
      assert s[i] == r[i] && s[i + 1] == r[i + 1];
    }
    if s != [] {
      assert s[|s| - 1] == r[|s| - 1];
    }
  }

  /** Text that begins with a run does not begin with an escape pair. */
  lemma RunNotEscape(s: string, r: string)
    requires RunAt(s, r)
    ensures !(1 < |r| && r[0] == '\\' && Special(r[1]))
  {
    PlainPrefix(s, r);
  }

  /** At most one run heads a text. */
  lemma RunUnique(s: string, t: string, r: string)
    requires RunAt(s, r) && RunAt(t, r)
    ensures s == t
  {
    PlainPrefix(s, r);
    PlainPrefix(t, r);
    assert |s| == |t|;
  }

  /** Two well-formed lists with the same rendering start with the same token. */
  lemma HeadsAgree(a: seq<Token>, b: seq<Token>)
    requires WellTokens(a) && WellTokens(b) && a != [] && b != [] && Render(a) == Render(b)
    ensures a[0] == b[0]
  {
    var r := Render(a);
    RenderHead(a);
    RenderHead(b);
    if a[0].Text? {
      TextHead(a);
      RunNotEscape(a[0].s, r);
    }
    if b[0].Text? {
      TextHead(b);
      RunNotEscape(b[0].s, r);
    }
    if a[0].Text? && b[0].Text? {
      RunUnique(a[0].s, b[0].s, r);
    }
    if a[0].Escape? && b[0].Escape? {
      assert r[1] == a[0].c && r[1] == b[0].c;
    }
  }

  /** Dropping the first token of a well-formed list leaves a well-formed list. */
  lemma WellTokensTail(ts: seq<Token>)
    requires WellTokens(ts) && ts != []
    ensures WellTokens(ts[1..])
  {
    var tail := ts[1..];
    forall k | 0 <= k < |tail| ensures WellToken(tail[k]) {
      assert tail[k] == ts[k + 1];
    }
    forall k | 0 <= k < |tail| - 1 && tail[k].Text? ensures tail[k + 1].Escape? && !OpenEnded(tail[k].s) {
      assert tail[k] == ts[k + 1] && tail[k + 1] == ts[k + 2];
    }
  }

  /** The tokens after the first render as the text after the first token. */
  lemma RenderTail(ts: seq<Token>)
    requires ts != []
    ensures |RenderToken(ts[0])| <= |Render(ts)| && Render(ts[1..]) == Render(ts)[|RenderToken(ts[0])|..]
    ensures ts == [ts[0]] + ts[1..]
  {
    RenderHead(ts);
  }

  /** A well-formed list renders differently from every other well-formed list:
      the text determines its tokens. */
  lemma {:induction false} WellTokensUnique(a: seq<Token>, b: seq<Token>)
    requires WellTokens(a) && WellTokens(b) && Render(a) == Render(b)
    ensures a == b
    decreases |a|
  {
    if a != [] && b != [] {
      HeadsAgree(a, b);
      WellTokensTail(a);
      WellTokensTail(b);
      RenderTail(a);
      RenderTail(b);
      WellTokensUnique(a[1..], b[1..]);
    } else {
      RenderEmpty(a);
      RenderEmpty(b);
    }
  }

  /** The tokens of a parameter are its only well-formed tokenization: any
      well-formed list that renders as src is the scanner's, so every `\\`, `\=`
      and `\:` of src is an escape token and every other character is in a run. */
  lemma GatherUnique(src: string, ts: seq<Token>)
    requires WellTokens(ts) && Render(ts) == src
    ensures ts == Gather(src)
  {
    GatherRenders(src);
    GatherWellTokens(src);
    WellTokensUnique(ts, Gather(src));
  }

  /** A backslash before `\`, `=` or `:` is scanned as an escape of that character. */
  lemma GatherSpecial(c: char)
    requires Special(c)
    ensures Gather(['\\', c]) == [Escape(c)]
  {
    var src := ['\\', c];
    assert Flush(src[0..0]) == [] && Lex(src, 2, 2) == [];
  }

  /** A request parameter: a header `key:value` or a data item `key=value`. */
  datatype Parameter = Header(key: string, value: string) | Data(key: string, value: string) {

    /** Whether the parameter is a data item rather than a header. */
    function IsData(): (b: bool)
      ensures b <==> Data?
    {
      match this
      case Header(_, _) => false
      case _ => true
    }
  }

  /** The two separators of a parameter. */
  datatype Separator = Colon | Equal

  /** The text of a separator. */
  function Symbol(sep: Separator): string {
    match sep
    case Colon => ":"
    case Equal => "="
  }

  /** The separator a text names: exactly ":" and "=" name one, and the separator
      found is the one whose text it is. */
  function SeparatorFrom(value: string): (r: Result<Separator, Unit>)
    ensures r.Ok? <==> value == ":" || value == "="
    ensures r.Ok? ==> Symbol(r.value) == value
  {
    if value == ":" then Ok(Colon)
    else if value == "=" then Ok(Equal)
    else Err(Unit)
  }

  /** Every separator is recovered from its text. */
  lemma SeparatorRoundTrip(sep: Separator)
    ensures SeparatorFrom(Symbol(sep)) == Ok(sep)
  {
  }

  /** The separators looked for, in the order they are tried. */
  const Separators: seq<char> := ['=', ':']

  predicate IsSeparator(c: char) {
    c == '=' || c == ':'
  }

  /** A text token holding a separator character. */
  predicate HasSeparator(t: Token) {
    t.Text? && exists i :: 0 <= i < |t.s| && IsSeparator(t.s[i])
  }

  /** The position of the first occurrence of c in s, if any. */
  function Find(s: string, c: char): (r: Option<nat>)
    ensures r.None? <==> c !in s
    ensures r.Some? ==> r.value < |s| && s[r.value] == c && c !in s[..r.value]
  {
    if s == [] then None
    else if s[0] == c then Some(0)
    else match Find(s[1..], c)
      case None => None
      case Some(n) =>
        assert s[..n + 1] == [s[0]] + s[1..][..n];
        Some(n + 1)
  }

  /** The position of the first separator character of s. */
  function FirstSeparator(s: string): (n: nat)
    requires exists i :: 0 <= i < |s| && IsSeparator(s[i])
    ensures n < |s| && IsSeparator(s[n]) && forall i :: 0 <= i < n ==> !IsSeparator(s[i])
  {
    if IsSeparator(s[0]) then 0
    else
      assert exists i :: 0 <= i < |s[1..]| && IsSeparator(s[1..][i]) by {
        var i :| 0 <= i < |s| && IsSeparator(s[i]);
        assert i > 0 && s[1..][i - 1] == s[i];
      }
      1 + FirstSeparator(s[1..])
  }

  /** The index of the first token that is a text holding a separator, if any. */
  function FirstSepToken(ts: seq<Token>): (r: Option<nat>)
    ensures r.None? <==> forall k :: 0 <= k < |ts| ==> !HasSeparator(ts[k])
    ensures r.Some? ==>
      r.value < |ts| && HasSeparator(ts[r.value]) && forall k :: 0 <= k < r.value ==> !HasSeparator(ts[k])
  {
    if ts == [] then None
    else if HasSeparator(ts[0]) then Some(0)
    else match FirstSepToken(ts[1..])
      case None =>
        assert forall k :: 1 <= k < |ts| ==> ts[k] == ts[1..][k - 1];
        None
      case Some(i) =>
        assert forall k :: 1 <= k < i + 1 ==> ts[k] == ts[1..][k - 1];
        Some(i + 1)
  }

  /** The entries `(position, separator)` for the first k separators that occur
      in s, in the order they are tried. */
  function FoundIn(s: string, k: int): (found: seq<(nat, char)>)
    requires 0 <= k <= |Separators|
    ensures |found| <= k
    ensures forall e :: e in found ==> e.0 < |s| && IsSeparator(e.1) && s[e.0] == e.1 && e.1 !in s[..e.0]
    ensures found == [] <==> forall j :: 0 <= j < k ==> Separators[j] !in s
  {
    if k == 0 then []
    else
      var sep := Separators[k - 1];
      FoundIn(s, k - 1) + match Find(s, sep) case Some(n) => [(n, sep)] case None => []
  }

  /** The found entries ordered by position, a longer separator first among
      entries at one position; both separators are one character long and sit at
      different positions, so the order is by position alone. */
  function SortByPosition(found: seq<(nat, char)>): (sorted: seq<(nat, char)>)
    requires |found| <= 2
    ensures multiset(sorted) == multiset(found) && |sorted| == |found|
    ensures forall i, j :: 0 <= i < j < |sorted| ==> sorted[i].0 <= sorted[j].0
  {
    if |found| == 2 && found[1].0 < found[0].0 then
      assert found == [found[0]] + [found[1]];
      [found[1], found[0]]
    else found
  }

  /** Find stops at the first occurrence. */
  lemma {:induction false} FindFirst(s: string, c: char, n: int)
    requires 0 <= n < |s| && s[n] == c && forall i :: 0 <= i < n ==> s[i] != c
    ensures Find(s, c) == Some(n)
  {
    if n > 0 {
      FindFirst(s[1..], c, n - 1);
    }
  }

  /** Sorting puts the entry with the smallest position first. */
  lemma SortedHead(found: seq<(nat, char)>, n: nat, c: char)
    requires |found| <= 2 && (n, c) in found
    requires forall e :: e in found ==> e.0 >= n && (e.0 == n ==> e.1 == c)
    ensures SortByPosition(found) != [] && SortByPosition(found)[0] == (n, c)
  {
    var sorted := SortByPosition(found);
    assert (n, c) in multiset(sorted);
    var j :| 0 <= j < |sorted| && sorted[j] == (n, c);
    assert sorted[0] in multiset(found);
  }

  /** The entry that sorts first names the first separator character of s. */
  lemma FoundHead(s: string)
    requires HasSeparator(Text(s))
    ensures var found := SortByPosition(FoundIn(s, 2));
      found != [] && found[0] == (FirstSeparator(s), s[FirstSeparator(s)])
  {
    var n := FirstSeparator(s);
    var c := s[n];
    FindFirst(s, c, n);
    var found := FoundIn(s, 2);
    var first := FoundIn(s, 1);
    assert first == FoundIn(s, 0) + match Find(s, '=') case Some(m) => [(m, '=')] case None => [];
    assert found == first + match Find(s, ':') case Some(m) => [(m, ':')] case None => [];
    assert (n, c) in found by {
      if c == '=' {
        assert first == [(n, c)];
      } else {
        assert found == first + [(n, c)];
      }
    }
    SortedHead(found, n, c);
  }

  /** `str::splitn(2, c)`: the text before the first c and the text after it, or
      the whole text alone when c does not occur. */
  function SplitOnce(s: string, c: char): (parts: seq<string>)
    ensures 1 <= |parts| <= 2
    ensures c !in s ==> parts == [s]
    ensures c in s ==> |parts| == 2 && parts[0] + [c] + parts[1] == s && c !in parts[0]
  {
    match Find(s, c)
    case None => [s]
    case Some(n) =>
      assert s[..n] + [c] + s[n + 1..] == s;
      [s[..n], s[n + 1..]]
  }

  /** The parameter src denotes: it splits at the first separator character of
      the first text token that holds one; before it lie the key, after it the
      value, with escapes written back as backslash pairs; `=` makes a data item
      and `:` a header. Without an unescaped separator there is no parameter. */
  function SplitParam(src: string): (r: Result<Parameter, string>)
    ensures r.Err? <==> forall k :: 0 <= k < |Gather(src)| ==> !HasSeparator(Gather(src)[k])
    ensures r.Err? ==> r.error == "missing separator"
  {
    var ts := Gather(src);
    match FirstSepToken(ts)
    case None => Err("missing separator")
    case Some(i) =>
      var s := ts[i].s;
      var n := FirstSeparator(s);
      var key := Render(ts[..i]) + s[..n];
      var value := s[n + 1..] + Render(ts[i + 1..]);
      if s[n] == '=' then Ok(Data(key, value)) else Ok(Header(key, value))
  }

  /** The character a parameter was split at. */
  function SeparatorOf(p: Parameter): char {
    if p.IsData() then '=' else ':'
  }

  /** Rendering a prefix one token longer. */
  lemma RenderTake(ts: seq<Token>, i: int)
    requires 0 <= i < |ts|
    ensures Render(ts[..i + 1]) == Render(ts[..i]) + RenderToken(ts[i])
  {
    assert ts[..i + 1][..i] == ts[..i];
  }

  /** Rendering a slice one token longer. */
  lemma RenderSlice(ts: seq<Token>, a: int, i: int)
    requires 0 <= a <= i < |ts|
    ensures Render(ts[a..i + 1]) == Render(ts[a..i]) + RenderToken(ts[i])
  {
    assert ts[a..i + 1][..i - a] == ts[a..i];
  }

  /** Text with a token s in the middle is the part up to position n of s, the
      character at n, and the rest: the key, the separator and the value. */
  lemma SplitJoin(before: string, s: string, after: string, n: int)
    requires 0 <= n < |s|
    ensures before + s + after == (before + s[..n]) + [s[n]] + (s[n + 1..] + after)
  {
    assert s == s[..n] + [s[n]] + s[n + 1..];
  }

  /** Round trip: a parsed parameter is its key, its separator and its value
      written one after the other, so `=` goes with a data item and `:` with a
      header. */
  lemma ParamRoundTrip(src: string)
    requires SplitParam(src).Ok?
    ensures var p := SplitParam(src).value; p.key + [SeparatorOf(p)] + p.value == src
  {
    var ts := Gather(src);
    var i := FirstSepToken(ts).value;
    var s := ts[i].s;
    var n := FirstSeparator(s);
    var before, after := Render(ts[..i]), Render(ts[i + 1..]);
    assert src == before + s + after by {
      GatherRenders(src);
      assert ts == ts[..i + 1] + ts[i + 1..];
      RenderAppend(ts[..i + 1], ts[i + 1..]);
      RenderTake(ts, i);
    }
    SplitJoin(before, s, after, n);
    var p := SplitParam(src).value;
    assert p.key == before + s[..n] && p.value == s[n + 1..] + after;
    assert SeparatorOf(p) == s[n];
  }

  /** The first i tokens of a well-formed list are well formed. */
  lemma WellTokensTake(ts: seq<Token>, i: int)
    requires WellTokens(ts) && 0 <= i <= |ts|
    ensures WellTokens(ts[..i])
  {
    var pre := ts[..i];
    forall k | 0 <= k < |pre| ensures WellToken(pre[k]) {
      assert pre[k] == ts[k];
    }
    forall k | 0 <= k < |pre| - 1 && pre[k].Text? ensures pre[k + 1].Escape? && !OpenEnded(pre[k].s) {
      assert pre[k] == ts[k] && pre[k + 1] == ts[k + 1];
    }
  }

  /** The start of a plain run is plain. */
  lemma PlainTake(s: string, n: int)
    requires Plain(s) && 0 <= n <= |s|
    ensures Plain(s[..n])
  {
    var pre := s[..n];
    forall j | 0 <= j < |pre| - 1 && pre[j] == '\\' ensures !Special(pre[j + 1]) {
      assert pre[j] == s[j] && pre[j + 1] == s[j + 1];
    }
  }

  /** The key of a parsed parameter, scanned again, gives back the tokens before
      the separator run followed by the part of that run before the separator. */
  lemma KeyTokens(src: string)
    requires SplitParam(src).Ok?
    ensures var ts := Gather(src); var i := FirstSepToken(ts).value; var s := ts[i].s;
      Gather(SplitParam(src).value.key) == ts[..i] + Flush(s[..FirstSeparator(s)])
  {
    var ts := Gather(src);
    var i := FirstSepToken(ts).value;
    var s := ts[i].s;
    var n := FirstSeparator(s);
    var key := SplitParam(src).value.key;
    var pre, run := ts[..i], Flush(s[..n]);
    assert key == Render(pre) + s[..n];
    assert WellTokens(pre + run) by {
      GatherWellTokens(src);
      WellTokensTake(ts, i);
      assert WellToken(ts[i]);
      PlainTake(s, n);
      assert WellTokens(run);
      assert pre != [] ==> pre[|pre| - 1] == ts[i - 1];
      WellTokensAppend(pre, run);
    }
    assert Render(pre + run) == key by {
      RenderAppend(pre, run);
      RenderFlush(s[..n]);
    }
    GatherUnique(key, pre + run);
  }

  /** The key of a parsed parameter holds no unescaped separator: none of its text
      runs, scanned again, contains `=` or `:`. */
  lemma KeyUnescaped(src: string)
    requires SplitParam(src).Ok?
    ensures var key := SplitParam(src).value.key;
      forall k :: 0 <= k < |Gather(key)| ==> !HasSeparator(Gather(key)[k])
  {
    var ts := Gather(src);
    var i := FirstSepToken(ts).value;
    var s := ts[i].s;
    var n := FirstSeparator(s);
    var toks := ts[..i] + Flush(s[..n]);
    KeyTokens(src);
    forall k | 0 <= k < |toks| ensures !HasSeparator(toks[k]) {
      if k < i {
        assert toks[k] == ts[k];
      } else {
        assert toks[k] == Text(s[..n]);
        assert forall j :: 0 <= j < n ==> s[..n][j] == s[j];
      }
    }
  }

  /** The first loop of `parse_param`: the index of the first text token holding
      a separator, and the entries found in it. */
  method FindSeparatorToken(tokens: seq<Token>) returns (found: seq<(nat, char)>, idx: nat)
    ensures found == [] <==> FirstSepToken(tokens).None?
    ensures found != [] ==> FirstSepToken(tokens) == Some(idx) && tokens[idx].Text? && found == FoundIn(tokens[idx].s, 2)
  {
    found := [];
    idx := 0;
    for i := 0 to |tokens|
      invariant found == [] && forall j :: 0 <= j < i ==> !HasSeparator(tokens[j])
    {
      match tokens[i]
      case Text(s) =>
        for k := 0 to |Separators|
          invariant found == FoundIn(s, k)
        {
          var n := Find(s, Separators[k]);
          if n.Some? {
            found := found + [(n.value, Separators[k])];
          }
        }
        if found != [] {
          idx := i;
          break;
        }
      case Escape(_) =>
    }
  }

  /** Append a token to the text being built, an escape as a backslash followed
      by the escaped character. */
  method PushToken(acc: string, t: Token) returns (acc': string)
    ensures acc' == acc + RenderToken(t)
  {
    match t
    case Text(s) =>
      acc' := acc + s;
    case Escape(c) =>
      acc' := acc + ['\\'];
      acc' := acc' + [c];
  }

  /** The state of the second loop of `parse_param` after i tokens, when the text
      of the separator token idx splits into before and after: before token idx
      the key is the rendering so far and the value is empty; after it the key is
      complete and the value is after followed by the rendering of the tokens
      since. */
  predicate Joined(tokens: seq<Token>, idx: int, before: string, after: string, i: int, key: string, value: string)
    requires 0 <= idx < |tokens| && 0 <= i <= |tokens|
  {
    if i <= idx then key == Render(tokens[..i]) && value == []
    else key == Render(tokens[..idx]) + before && value == after + Render(tokens[idx + 1..i])
  }

  /** A token before the separator token extends the key. */
  lemma JoinBefore(tokens: seq<Token>, idx: int, before: string, after: string, i: int, key: string, value: string)
    requires 0 <= i < idx < |tokens| && Joined(tokens, idx, before, after, i, key, value)
    ensures Joined(tokens, idx, before, after, i + 1, key + RenderToken(tokens[i]), value)
  {
    RenderTake(tokens, i);
  }

  /** The separator token ends the key with the part before the separator and
      starts the value with the part after it. */
  lemma JoinAt(tokens: seq<Token>, idx: int, before: string, after: string, key: string, value: string)
    requires 0 <= idx < |tokens| && Joined(tokens, idx, before, after, idx, key, value)
    ensures Joined(tokens, idx, before, after, idx + 1, key + before, value + after)
  {
    assert tokens[idx + 1..idx + 1] == [];
  }

  /** A token after the separator token extends the value. */
  lemma JoinAfter(tokens: seq<Token>, idx: int, before: string, after: string, i: int, key: string, value: string)
    requires 0 <= idx < i < |tokens| && Joined(tokens, idx, before, after, i, key, value)
    ensures Joined(tokens, idx, before, after, i + 1, key, value + RenderToken(tokens[i]))
  {
    RenderSlice(tokens, idx + 1, i);
  }

  /** The second loop of `parse_param`: the tokens before idx, rendered, then the
      text of token idx up to the first sep make the key; the rest of that text,
      then the tokens after idx, rendered, make the value. */
  method JoinAround(tokens: seq<Token>, idx: nat, sep: char) returns (key: string, value: string)
    requires idx < |tokens| && tokens[idx].Text? && sep in tokens[idx].s
    ensures var parts := SplitOnce(tokens[idx].s, sep);
      key == Render(tokens[..idx]) + parts[0] && value == parts[1] + Render(tokens[idx + 1..])
  {
    ghost var parts := SplitOnce(tokens[idx].s, sep);
    key := "";
    value := "";
    for i := 0 to |tokens|
      invariant Joined(tokens, idx, parts[0], parts[1], i, key, value)
    {
      if i < idx {
        JoinBefore(tokens, idx, parts[0], parts[1], i, key, value);
        key := PushToken(key, tokens[i]);
      } else if i > idx {
        JoinAfter(tokens, idx, parts[0], parts[1], i, key, value);
        value := PushToken(value, tokens[i]);
      } else {
        match tokens[i]
        case Text(t) =>
          JoinAt(tokens, idx, parts[0], parts[1], key, value);
          var split := SplitOnce(t, sep);
          key := key + split[0];
          value := value + split[|split| - 1];
        case Escape(_) =>
          assert false;
      }
    }
    assert tokens[idx + 1..|tokens|] == tokens[idx + 1..];
  }

  /** Splitting at the first occurrence of a character. */
  lemma SplitAtFirst(s: string, c: char, n: int)
    requires Find(s, c) == Some(n)
    ensures SplitOnce(s, c) == [s[..n], s[n + 1..]]
  {
  }

  /** The parameter src denotes, given the key and value built around the first
      separator. */
  lemma SplitParamAt(src: string, idx: nat, key: string, value: string)
    requires FirstSepToken(Gather(src)) == Some(idx)
    requires var ts := Gather(src); var s := ts[idx].s; var n := FirstSeparator(s);
      key == Render(ts[..idx]) + s[..n] && value == s[n + 1..] + Render(ts[idx + 1..])
    ensures var s := Gather(src)[idx].s;
      SplitParam(src) == if s[FirstSeparator(s)] == '=' then Ok(Data(key, value)) else Ok(Header(key, value))
  {
  }

  /** Parse one parameter: tokenize it, find the first text token holding a
      separator and the earliest separator in it, split there, and classify by
      the separator. */
  method ParseParam(src: string) returns (r: Result<Parameter, string>)
    ensures r == SplitParam(src)
  {
    var tokens := GatherEscapes(src);
    var found, idx := FindSeparatorToken(tokens);
    if found == [] {
      return Err("missing separator");
    }
    ghost var s := tokens[idx].s;
    ghost var n := FirstSeparator(s);
    FoundHead(s);
    found := SortByPosition(found);
    var sep := found[0].1;
    assert sep == s[n] && SplitOnce(s, sep) == [s[..n], s[n + 1..]] by {
      FindFirst(s, sep, n);
      SplitAtFirst(s, sep, n);
    }
    var key, value := JoinAround(tokens, idx, sep);
    assert SplitParam(src) == if sep == '=' then Ok(Data(key, value)) else Ok(Header(key, value)) by {
      SplitParamAt(src, idx, key, value);
    }
    match SeparatorFrom([sep])
    case Ok(Equal) =>
      r := Ok(Data(key, value));
    case Ok(Colon) =>
      r := Ok(Header(key, value));
    case Err(_) =>
      assert false;
  }

  /** The URL and the parameters given to a method subcommand. */
  datatype MethodData = MethodData(url: string, parameters: seq<Parameter>)

  /** A method subcommand: the HTTP method with its URL and parameters. */
  datatype Method =
    | HEAD(MethodData)
    | GET(MethodData)
    | PUT(MethodData)
    | POST(MethodData)
    | PATCH(MethodData)
    | DELETE(MethodData)
  {
    /** The data of the subcommand, whichever method it names. */
    function Data(): (d: MethodData)
      ensures this in {HEAD(d), GET(d), PUT(d), POST(d), PATCH(d), DELETE(d)}
    {
      match this
      case HEAD(x) => x
      case GET(x) => x
      case PUT(x) => x
      case POST(x) => x
      case PATCH(x) => x
      case DELETE(x) => x
    }
  }

  /** The command line of the client. */
  datatype App = App(
    quiet: bool,
    verbose: nat,
    form: bool,
    auth: Option<string>,
    token: Option<string>,
    session: Option<string>,
    sessionDir: Option<string>,
    readOnly: bool,
    secure: bool,
    config: Option<string>,
    cmd: Option<Method>,
    url: Option<string>,
    parameters: seq<Parameter>)
  {
    /** A command line is rejected exactly when it names neither a method
        subcommand nor a URL. */
    function Validate(): (r: Result<Unit, Unit>)
      ensures r.Err? <==> cmd.None? && url.None?
    {
      if cmd.None? && url.None? then Err(Unit) else Ok(Unit)
    }
  }
}
