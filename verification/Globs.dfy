/** Globs compiled to regular expressions, and the backtracking matcher that reads them back.  The composition
    means what the glob means. */
module Globs {

  // ---- what a glob means --------------------------------------------------------------------------------------

  datatype Token = AnyRun | SegmentRun | NonSlash | Literal(c: char)

  /** The tokens of a glob: a double star swallows a slash that follows it. */
  function Parse(g: string): seq<Token>
    decreases |g|
  {
    if g == "" then []
    else if g[0] == '*' then
      if |g| > 1 && g[1] == '*' then [AnyRun] + Parse(if |g| > 2 && g[2] == '/' then g[3..] else g[2..])
      else [SegmentRun] + Parse(g[1..])
    else if g[0] == '?' then [NonSlash] + Parse(g[1..])
    else [Literal(g[0])] + Parse(g[1..])
  }

  predicate NoSlash(s: string) { forall i :: 0 <= i < |s| ==> s[i] != '/' }

  predicate Means(t: Token, s: string) {
    match t
    case AnyRun => true
    case SegmentRun => NoSlash(s)
    case NonSlash => |s| == 1 && s[0] != '/'
    case Literal(c) => s == [c]
  }

  function Concat(parts: seq<string>): string {
    if parts == [] then "" else parts[0] + Concat(parts[1..])
  }

  ghost predicate Splits(tokens: seq<Token>, parts: seq<string>, s: string) {
    |parts| == |tokens| && Concat(parts) == s && forall i :: 0 <= i < |tokens| ==> Means(tokens[i], parts[i])
  }

  /** The denotation: s is a concatenation of strings that the tokens stand for. */
  ghost predicate Denotes(tokens: seq<Token>, s: string) {
    exists parts: seq<string> :: Splits(tokens, parts, s)
  }

  // ---- compilation ------------------------------------------------------------------------------------------

  predicate Special(c: char) { c in ".+^${}()|[]\\" }

  function Render(t: Token): (r: string)
    ensures |r| > 0
  {
    match t
    case AnyRun => ".*"
    case SegmentRun => "[^/]*"
    case NonSlash => "[^/]"
    case Literal(c) => if Special(c) then ['\\', c] else [c]
  }

  function Body(tokens: seq<Token>): string {
    if tokens == [] then "" else Render(tokens[0]) + Body(tokens[1..])
  }

  const OPEN: string := "^(?:"
  const CLOSE: string := ")$"

  /** The token at index i, and the index after it. */
  function Next(g: string, i: nat): (r: (Token, nat))
    requires i < |g|
    ensures i < r.1 <= |g|
  {
    if g[i] == '*' then
      if i + 1 < |g| && g[i + 1] == '*' then (AnyRun, if i + 2 < |g| && g[i + 2] == '/' then i + 3 else i + 2)
      else (SegmentRun, i + 1)
    else if g[i] == '?' then (NonSlash, i + 1)
    else (Literal(g[i]), i + 1)
  }

  lemma ParseNext(g: string, i: nat)
    requires i < |g|
    ensures Parse(g[i..]) == [Next(g, i).0] + Parse(g[Next(g, i).1..])
  {
    var rest := g[i..];
    assert rest[1..] == g[i + 1..];
    if i + 1 < |g| { assert rest[2..] == g[i + 2..]; }
    if i + 2 < |g| { assert rest[3..] == g[i + 3..]; }
  }

  method GlobToRegex(glob: string) returns (re: string)
    ensures re == OPEN + Body(Parse(glob)) + CLOSE
  {
    hide Parse, Body, Next, Render;
    NothingToCompile();
    re := "";
    var i := 0;
    assert glob[0..] == glob;
    while i < |glob|
      invariant 0 <= i <= |glob| && re + Body(Parse(glob[i..])) == Body(Parse(glob))
    {
      ParseNext(glob, i);
      ghost var token := Next(glob, i).0;
      var piece, next := CompileAt(glob, i);
      BodyCons(token, Parse(glob[next..]));
      assert re + (piece + Body(Parse(glob[next..]))) == (re + piece) + Body(Parse(glob[next..]));
      re := re + piece;
      i := next;
    }
    assert glob[i..] == "";
    re := OPEN + re + CLOSE;
  }

  /** The text that one token compiles to, and where the next token starts. */
  method CompileAt(glob: string, i: nat) returns (piece: string, next: nat)
    requires i < |glob|
    ensures next == Next(glob, i).1 && piece == Render(Next(glob, i).0)
  {
    var c := glob[i];
    next := i + 1;
    if c == '*' {
      if i + 1 < |glob| && glob[i + 1] == '*' {
        piece := ".*";
        next := i + 2;
        if i + 2 < |glob| && glob[i + 2] == '/' {
          next := i + 3;
        }
      } else {
        piece := "[^/]*";
      }
    } else if c == '?' {
      piece := "[^/]";
    } else if c in ".+^${}()|[]\\" {
      piece := ['\\'];
      piece := piece + [c];
    } else {
      piece := [c];
    }
  }

  lemma NothingToCompile()
    ensures Body([]) == "" && Parse("") == []
  {
  }

  lemma BodyCons(t: Token, rest: seq<Token>)
    ensures Body([t] + rest) == Render(t) + Body(rest)
  {
    assert ([t] + rest)[1..] == rest;
  }

  // ---- trimming ---------------------------------------------------------------------------------------------

  /** `trim_start_matches`: every leading copy goes. */
  function TrimStart(s: string, pat: string): string
    requires |pat| > 0
    decreases |s|
  {
    if pat <= s then TrimStart(s[|pat|..], pat) else s
  }

  /** `trim_end_matches`: every trailing copy goes. */
  function TrimEnd(s: string, pat: string): string
    requires |pat| > 0
    decreases |s|
  {
    if |pat| <= |s| && s[|s| - |pat|..] == pat then TrimEnd(s[..|s| - |pat|], pat) else s
  }

  /** The tokens that parsing gives: a literal is neither a star nor a question mark. */
  predicate Plain(tokens: seq<Token>) {
    forall i :: 0 <= i < |tokens| ==> tokens[i].Literal? ==> tokens[i].c != '*' && tokens[i].c != '?'
  }

  lemma {:induction false} ParsePlain(g: string)
    ensures Plain(Parse(g))
    decreases |g|
  {
    if g != "" {
      if g[0] == '*' && |g| > 1 && g[1] == '*' {
        ParsePlain(if |g| > 2 && g[2] == '/' then g[3..] else g[2..]);
      } else {
        ParsePlain(g[1..]);
      }
    }
  }

  /** No compiled body starts with a caret or a star, so nothing more is trimmed at the front. */
  lemma BodyStart(tokens: seq<Token>)
    requires Plain(tokens)
    ensures Body(tokens) != "" ==> Body(tokens)[0] != '^' && Body(tokens)[0] != '*'
  {
    if tokens != [] {
      assert Body(tokens)[0] == Render(tokens[0])[0];
    }
  }

  /** A dollar at the end of a compiled body has a backslash before it, so nothing more is trimmed at the back. */
  lemma {:induction false} BodyEnd(tokens: seq<Token>)
    ensures |Body(tokens)| >= 1 && Body(tokens)[|Body(tokens)| - 1] == '$' ==>
            |Body(tokens)| >= 2 && Body(tokens)[|Body(tokens)| - 2] == '\\'
    decreases |tokens|
  {
    if tokens != [] {
      BodyEnd(tokens[1..]);
      if tokens[1..] == [] {
        assert Body(tokens) == Render(tokens[0]);
      } else {
        assert Body(tokens[1..]) != "";
      }
    }
  }

  lemma TrimsExactly(tokens: seq<Token>)
    requires Plain(tokens)
    ensures TrimEnd(TrimStart(OPEN + Body(tokens) + CLOSE, OPEN), CLOSE) == Body(tokens)
  {
    var body := Body(tokens);
    BodyStart(tokens);
    BodyEnd(tokens);
    hide Body, TrimStart, TrimEnd;
    var s := body + CLOSE;
    assert OPEN + body + CLOSE == OPEN + s;
    assert s[0] != '^' && OPEN[0] == '^';
    TrimStartOnce(OPEN, s);
    if |body| >= 2 {
      assert body[|body| - 2..] == [body[|body| - 2], body[|body| - 1]];
    }
    TrimEndOnce(CLOSE, body);
  }

  lemma TrimStartOnce(pat: string, s: string)
    requires |pat| > 0 && !(pat <= s)
    ensures TrimStart(pat + s, pat) == s
  {
    assert (pat + s)[|pat|..] == s;
  }

  lemma TrimEndOnce(pat: string, s: string)
    requires |pat| > 0 && !(|pat| <= |s| && s[|s| - |pat|..] == pat)
    ensures TrimEnd(s + pat, pat) == s
  {
    assert (s + pat)[|s|..] == pat && (s + pat)[..|s|] == s;
  }

  // ---- the matcher --------------------------------------------------------------------------------------------

  /** The index of the first closing bracket from i on, or the length of the pattern. */
  function FindClose(pat: string, i: nat): (r: nat)
    ensures i < r || i == r || r == |pat|
    ensures r <= |pat| && (i <= |pat| ==> i <= r)
    decreases |pat| - i
  {
    if i >= |pat| then |pat| else if pat[i] == ']' then i else FindClose(pat, i + 1)
  }

  /** How many characters from t on are outside the set. */
  function Outside(text: string, t: nat, set_: string): (n: nat)
    requires t <= |text|
    ensures t + n <= |text| && (forall i :: t <= i < t + n ==> text[i] !in set_) && (t + n < |text| ==>
            text[t + n] in set_)
    decreases |text| - t
  {
    if t == |text| || text[t] in set_ then 0 else 1 + Outside(text, t + 1, set_)
  }

  /** What the matcher accepts, from index p of the pattern and index t of the text. */
  predicate Accepts(pat: string, text: string, p: nat, t: nat)
    requires t <= |text|
    decreases |pat| - p, 0
  {
    if p >= |pat| then t == |text|
    else if pat[p] == '.' && p + 1 < |pat| && pat[p + 1] == '*' then
      AcceptsSome(pat, text, p + 2, t, |text|)
    else if pat[p] == '[' && p + 1 < |pat| && pat[p + 1] == '^' then
      var close := FindClose(pat, p + 2);
      var star := close + 1 < |pat| && pat[close + 1] == '*';
      var set_ := pat[p + 2..close];
      if star then AcceptsSome(pat, text, close + 2, t, t + Outside(text, t, set_))
      else t < |text| && text[t] !in set_ && Accepts(pat, text, close + 1, t + 1)
    else if pat[p] == '\\' && p + 1 < |pat| then
      t < |text| && pat[p + 1] == text[t] && Accepts(pat, text, p + 2, t + 1)
    else
      t < |text| && pat[p] == text[t] && Accepts(pat, text, p + 1, t + 1)
  }

  /** Some continuation from an index of lo..hi is accepted. */
  predicate AcceptsSome(pat: string, text: string, p: nat, lo: nat, hi: nat)
    requires lo <= hi <= |text|
    decreases |pat| - p, 1 + hi - lo
  {
    Accepts(pat, text, p, hi) || (lo < hi && AcceptsSome(pat, text, p, lo, hi - 1))
  }

  predicate AcceptsAt(pat: string, text: string, p: nat, t: nat)
    requires t <= |text|
  {
    Accepts(pat, text, p, t)
  }

  lemma {:induction false} AcceptsSomeMeans(pat: string, text: string, p: nat, lo: nat, hi: nat)
    requires lo <= hi <= |text|
    ensures AcceptsSome(pat, text, p, lo, hi) <==> exists j: nat :: lo <= j <= hi && AcceptsAt(pat, text, p, j)
    decreases hi
  {
    assert AcceptsAt(pat, text, p, hi) <==> Accepts(pat, text, p, hi);
    if lo < hi {
      AcceptsSomeMeans(pat, text, p, lo, hi - 1);
    }
  }

  /** The loop with recursion at every choice; the pattern that remains gets shorter. */
  method Backtrack(pat: string, text: string, pi: nat, ti: nat) returns (ok: bool)
    requires ti <= |text|
    ensures ok <==> Accepts(pat, text, pi, ti)
    decreases |pat| - pi, 1
  {
    var p, t := pi, ti;
    while p < |pat|
      invariant pi <= p && 0 <= t <= |text| && (Accepts(pat, text, p, t) <==> Accepts(pat, text, pi, ti))
      decreases |pat| - p
    {
      var c := pat[p];
      if c == '.' && p + 1 < |pat| && pat[p + 1] == '*' {
        ok := Anything(pat, text, p + 2, t);
        return;
      } else if c == '[' && p + 1 < |pat| && pat[p + 1] == '^' {
        var close := FindClose(pat, p + 2);
        var star := close + 1 < |pat| && pat[close + 1] == '*';
        var set_ := pat[p + 2..close];
        if t >= |text| && !star {
          return false;
        }
        if star {
          ok := Greedy(pat, text, p, close, t, set_);
          return;
        } else if text[t] in set_ {
          return false;
        }
        p := close + 1;
        t := t + 1;
      } else if c == '\\' && p + 1 < |pat| {
        p := p + 1;
        if t >= |text| || pat[p] != text[t] {
          return false;
        }
        p := p + 1;
        t := t + 1;
      } else {
        if t >= |text| || pat[p] != text[t] {
          return false;
        }
        p := p + 1;
        t := t + 1;
      }
    }
    return t == |text|;
  }

  /** The dot-star: every index from t on is tried. */
  method Anything(pat: string, text: string, p: nat, t: nat) returns (ok: bool)
    requires t <= |text| && p <= |pat|
    ensures ok <==> AcceptsSome(pat, text, p, t, |text|)
    decreases |pat| - p, 2
  {
    hide Accepts, AcceptsSome;
    AcceptsSomeMeans(pat, text, p, t, |text|);
    var skip := t;
    while skip <= |text|
      invariant t <= skip <= |text| + 1 && forall k: nat :: t <= k < skip ==> !AcceptsAt(pat, text, p, k)
    {
      var found := Backtrack(pat, text, p, skip);
      if found {
        assert AcceptsAt(pat, text, p, skip);
        return true;
      }
      skip := skip + 1;
    }
    return false;
  }

  /** The starred class: as many characters as possible, then fewer. */
  method Greedy(pat: string, text: string, p: nat, close: nat, t: nat, set_: string) returns (ok: bool)
    requires t <= |text| && p < close && close + 1 < |pat|
    ensures ok <==> AcceptsSome(pat, text, close + 2, t, t + Outside(text, t, set_))
    decreases |pat| - p, 0
  {
    hide Accepts, AcceptsSome;
    AcceptsSomeMeans(pat, text, close + 2, t, t + Outside(text, t, set_));
    var consumed, after := 0, close + 2;
    while t + consumed < |text| && text[t + consumed] !in set_
      invariant 0 <= consumed && t + consumed <= |text| && consumed + Outside(text, t + consumed, set_) ==
                Outside(text, t, set_)
      decreases |text| - consumed
    {
      consumed := consumed + 1;
    }
    var k := consumed;
    while k >= 0
      invariant -1 <= k <= consumed && forall j: nat :: t + k < j <= t + consumed ==> !AcceptsAt(pat, text, after, j)
    {
      var found := Backtrack(pat, text, after, t + k);
      if found {
        assert AcceptsAt(pat, text, after, t + k);
        return true;
      }
      k := k - 1;
    }
    return false;
  }

  /** Strips the anchors and runs the matcher. */
  method RegexTest(re: string, p: string) returns (ok: bool)
    ensures ok <==> Accepts(TrimEnd(TrimStart(re, OPEN), CLOSE), p, 0, 0)
  {
    var inner := TrimEnd(TrimStart(re, OPEN), CLOSE);
    ok := Backtrack(inner, p, 0, 0);
  }

  // ---- the composition means the glob -----------------------------------------------------------------------

  /** A recursive reading of the denotation, from index t of the text. */
  predicate Reads(tokens: seq<Token>, text: string, t: nat)
    requires t <= |text|
    decreases |tokens|, 0
  {
    if tokens == [] then t == |text|
    else
      match tokens[0]
      case AnyRun => ReadsSome(tokens[1..], text, t, |text|)
      case SegmentRun => ReadsSome(tokens[1..], text, t, t + Outside(text, t, "/"))
      case NonSlash => t < |text| && text[t] != '/' && Reads(tokens[1..], text, t + 1)
      case Literal(c) => t < |text| && text[t] == c && Reads(tokens[1..], text, t + 1)
  }

  predicate ReadsSome(tokens: seq<Token>, text: string, lo: nat, hi: nat)
    requires lo <= hi <= |text|
    decreases |tokens|, 1 + hi - lo
  {
    Reads(tokens, text, hi) || (lo < hi && ReadsSome(tokens, text, lo, hi - 1))
  }

  predicate ReadsAt(tokens: seq<Token>, text: string, t: nat)
    requires t <= |text|
  {
    Reads(tokens, text, t)
  }

  lemma {:induction false} ReadsSomeMeans(tokens: seq<Token>, text: string, lo: nat, hi: nat)
    requires lo <= hi <= |text|
    ensures ReadsSome(tokens, text, lo, hi) <==> exists j: nat :: lo <= j <= hi && ReadsAt(tokens, text, j)
    decreases hi
  {

    assert ReadsAt(tokens, text, hi) <==> Reads(tokens, text, hi);
    if lo < hi {
      ReadsSomeMeans(tokens, text, lo, hi - 1);
    }
  }

  /** What the matcher makes of one rendered token. */
  predicate Consumes(t0: Token, pat: string, text: string, next: nat, t: nat)
    requires t <= |text|
  {
    match t0
    case AnyRun => AcceptsSome(pat, text, next, t, |text|)
    case SegmentRun => AcceptsSome(pat, text, next, t, t + Outside(text, t, "/"))
    case NonSlash => t < |text| && text[t] != '/' && Accepts(pat, text, next, t + 1)
    case Literal(c) => t < |text| && text[t] == c && Accepts(pat, text, next, t + 1)
  }

  lemma CloseOfClass(pat: string, p: nat)
    requires p + 3 < |pat| && pat[p + 2] == '/' && pat[p + 3] == ']'
    ensures FindClose(pat, p + 2) == p + 3 && pat[p + 2..p + 3] == "/"
  {
    assert FindClose(pat, p + 2) == FindClose(pat, p + 3);
  }

  lemma AcceptsToken(pre: string, t0: Token, rest: string, text: string, t: nat)
    requires t <= |text| && (rest != "" ==> rest[0] != '*') && (t0.Literal? ==> t0.c != '*' && t0.c != '?')
    ensures var pat := pre + Render(t0) + rest;
            Accepts(pat, text, |pre|, t) <==> Consumes(t0, pat, text, |pre + Render(t0)|, t)
  {
    hide FindClose, AcceptsSome, Outside;
    var r, p := Render(t0), |pre|;
    var pat := pre + r + rest;
    assert forall i :: 0 <= i < |r| ==> pat[p + i] == r[i];
    assert rest != "" ==> pat[p + |r|] == rest[0];
    match t0 {
      case AnyRun =>
        assert pat[p] == r[0] && pat[p + 1] == r[1];
      case SegmentRun =>
        assert pat[p] == r[0] && pat[p + 1] == r[1] && pat[p + 2] == r[2] && pat[p + 3] == r[3] && pat[p + 4] == r[4];
        CloseOfClass(pat, p);
      case NonSlash =>
        assert pat[p] == r[0] && pat[p + 1] == r[1] && pat[p + 2] == r[2] && pat[p + 3] == r[3];
        CloseOfClass(pat, p);
      case Literal(c) =>
        assert pat[p] == r[0] && (Special(c) ==> pat[p + 1] == r[1]);
        LiteralFirst(c);
    }
  }

  lemma LiteralFirst(c: char)
    ensures !Special(c) ==> c != '.' && c != '[' && c != '\\'
  {
    var s := ".+^${}()|[]\\";
    assert s[0] == '.' && s[9] == '[' && s[11] == '\\';
  }

  /** If the rest is read as it is accepted, so is the whole. */
  lemma ConsumesReads(tokens: seq<Token>, pat: string, text: string, next: nat, t: nat)
    requires t <= |text| && tokens != [] && forall j: nat :: j <= |text| ==> (AcceptsAt(pat, text, next, j) <==>
             ReadsAt(tokens[1..], text, j))
    ensures Consumes(tokens[0], pat, text, next, t) <==> Reads(tokens, text, t)
  {
    hide AcceptsSome, ReadsSome;
    if t < |text| {
      assert AcceptsAt(pat, text, next, t + 1) <==> ReadsAt(tokens[1..], text, t + 1);
    }
    AcceptsSomeMeans(pat, text, next, t, |text|);
    ReadsSomeMeans(tokens[1..], text, t, |text|);
    AcceptsSomeMeans(pat, text, next, t, t + Outside(text, t, "/"));
    ReadsSomeMeans(tokens[1..], text, t, t + Outside(text, t, "/"));
  }

  /** The compiled tokens, parsed again by the matcher, are read one by one. */
  lemma {:induction false} AcceptsReads(pre: string, tokens: seq<Token>, text: string, t: nat)
    requires t <= |text| && Plain(tokens)
    ensures Accepts(pre + Body(tokens), text, |pre|, t) <==> Reads(tokens, text, t)
    decreases |tokens|
  {
    if tokens == [] {
      assert pre + Body(tokens) == pre;
    } else {
      var r, rest := Render(tokens[0]), Body(tokens[1..]);
      var pat, next := pre + Body(tokens), pre + r;
      assert pat == next + rest;
      BodyStart(tokens[1..]);
      hide Accepts, AcceptsSome, Render, Body, Reads, ReadsSome, Consumes;
      forall j: nat | j <= |text| ensures AcceptsAt(pat, text, |next|, j) <==> ReadsAt(tokens[1..], text, j) {
        AcceptsReads(next, tokens[1..], text, j);
      }
      AcceptsToken(pre, tokens[0], rest, text, t);
      ConsumesReads(tokens, pat, text, |next|, t);
    }
  }

  // ---- the recursive reading is the denotation ----------------------------------------------------------------

  lemma ConcatCons(s: string, parts: seq<string>)
    ensures Concat([s] + parts) == s + Concat(parts)
  {
    assert ([s] + parts)[1..] == parts;
  }

  lemma OutsideSlash(text: string, t: nat, j: nat)
    requires t <= j <= |text|
    ensures NoSlash(text[t..j]) <==> j <= t + Outside(text, t, "/")
  {
    var n := Outside(text, t, "/");
    if j <= t + n {
      forall i | 0 <= i < j - t ensures text[t..j][i] != '/' { assert text[t + i] !in "/"; }
    } else {
      assert text[t + n] in "/" && text[t..j][n] == text[t + n];
    }
  }

  /** What is read can be split into parts that the tokens stand for. */
  lemma {:induction false} ReadsSplits(tokens: seq<Token>, text: string, t: nat) returns (parts: seq<string>)
    requires t <= |text| && Reads(tokens, text, t)
    ensures Splits(tokens, parts, text[t..])
    decreases |tokens|
  {
    if tokens == [] {
      return [];
    }
    var j := ReadToken(tokens, text, t);
    hide Reads, Means, Splits;
    var rest := ReadsSplits(tokens[1..], text, j);
    parts := [text[t..j]] + rest;
    SplitsCons(tokens, text[t..j], rest, text[j..]);
    assert text[t..] == text[t..j] + text[j..];
  }

  /** Where the first token ends. */
  lemma ReadToken(tokens: seq<Token>, text: string, t: nat) returns (j: nat)
    requires t <= |text| && tokens != [] && Reads(tokens, text, t)
    ensures t <= j <= |text| && Means(tokens[0], text[t..j]) && Reads(tokens[1..], text, j)
  {
    var n := Outside(text, t, "/");
    match tokens[0] {
      case AnyRun =>
        ReadsSomeMeans(tokens[1..], text, t, |text|);
        j :| t <= j <= |text| && ReadsAt(tokens[1..], text, j);
      case SegmentRun =>
        ReadsSomeMeans(tokens[1..], text, t, t + n);
        j :| t <= j <= t + n && ReadsAt(tokens[1..], text, j);
        OutsideSlash(text, t, j);
      case NonSlash =>
        j := t + 1;
      case Literal(c) =>
        j := t + 1;
    }
  }

  lemma SplitsCons(tokens: seq<Token>, s: string, rest: seq<string>, text: string)
    requires tokens != [] && Means(tokens[0], s) && Splits(tokens[1..], rest, text)
    ensures Splits(tokens, [s] + rest, s + text)
  {
    ConcatCons(s, rest);
  }

  lemma TokenRead(tokens: seq<Token>, text: string, t: nat, j: nat)
    requires t <= j <= |text| && tokens != [] && Means(tokens[0], text[t..j]) && Reads(tokens[1..], text, j)
    ensures Reads(tokens, text, t)
  {
    hide ReadsSome;
    assert ReadsAt(tokens[1..], text, j);
    OutsideSlash(text, t, j);
    ReadsSomeMeans(tokens[1..], text, t, |text|);
    ReadsSomeMeans(tokens[1..], text, t, t + Outside(text, t, "/"));
  }

  /** A split into parts is read. */
  lemma {:induction false} SplitsReads(tokens: seq<Token>, parts: seq<string>, text: string, t: nat)
    requires t <= |text| && Splits(tokens, parts, text[t..])
    ensures Reads(tokens, text, t)
    decreases |tokens|
  {
    if tokens != [] {
      var s, rest := parts[0], parts[1..];
      var j := t + |s|;
      assert Means(tokens[0], s) && text[t..] == s + Concat(rest) && forall i :: 0 <= i < |rest| ==>
             Means(tokens[i + 1], rest[i]);
      hide Concat, Reads, Means;
      assert text[t..][..|s|] == s && text[t..][|s|..] == Concat(rest);
      assert text[t..j] == s && text[j..] == Concat(rest);
      SplitsReads(tokens[1..], rest, text, j);
      TokenRead(tokens, text, t, j);
    }
  }

  /** Compilation preserves meaning: the matcher, run on the compiled glob, accepts a path if and only if the path
      is in the denotation of the glob. */
  lemma CompilationPreservesMeaning(g: string, path: string)
    ensures Accepts(TrimEnd(TrimStart(OPEN + Body(Parse(g)) + CLOSE, OPEN), CLOSE), path, 0, 0) <==>
            Denotes(Parse(g), path)
  {
    hide Body, Accepts, Reads, TrimStart, TrimEnd, Splits;
    var tokens := Parse(g);
    ParsePlain(g);
    TrimsExactly(tokens);
    assert "" + Body(tokens) == Body(tokens) && path[0..] == path;
    AcceptsReads("", tokens, path, 0);
    if Reads(tokens, path, 0) {
      var parts := ReadsSplits(tokens, path, 0);
    }
    if Denotes(tokens, path) {
      var parts: seq<string> :| Splits(tokens, parts, path);
      SplitsReads(tokens, parts, path, 0);
    }
  }

  /** `glob::matches`, without its cache. */
  method Matches(g: string, path: string) returns (ok: bool)
    ensures ok <==> Denotes(Parse(g), path)
  {
    hide Parse, Body, Accepts, Denotes;
    var re := GlobToRegex(g);
    ok := RegexTest(re, path);
    CompilationPreservesMeaning(g, path);
  }

  // ---- decide -------------------------------------------------------------------------------------------------

  datatype Decision = Pass | RedLine | UserDeny | OutOfScope

  const RED_LINES: seq<string> := ["**/auth/**", "**/migrations/**", "**/rls/**", "**/*.sql",
                                   "**/packages/db/migrations/**", "**/money/**", "**/payments/**", "**/bulk-edit/**",
                                   "**/secret/**", "**/secrets/**", "**/.env", "**/.env.*"]

  ghost predicate Hits(globs: seq<string>, path: string) {
    exists i :: 0 <= i < |globs| && Denotes(Parse(globs[i]), path)
  }

  function TrimSlashes(s: string): string {
    if s != "" && s[0] == '/' then TrimSlashes(s[1..]) else s
  }

  function StripPrefix(cwd: string, abs: string): string {
    if cwd <= abs then TrimSlashes(abs[|cwd|..]) else abs
  }

  predicate FileOp(op: string) { op in ["read", "edit", "run", "dispatch"] }

  function Relative(target: string, cwd: string): string {
    if target != "" && target[0] == '/' then StripPrefix(cwd, target) else target
  }

  ghost function DecisionOf(target: string, op: string, extraDeny: seq<string>, scope: seq<string>,
      cwd: string): Decision {
    if Hits(RED_LINES, target) then RedLine
    else if Hits(extraDeny, target) then UserDeny
    else if FileOp(op) && scope != [] && !Hits(scope, target) && !Hits(scope, Relative(target, cwd)) then OutOfScope
    else Pass
  }

  /** True when some glob of the list matches the path. */
  method AnyMatch(globs: seq<string>, path: string) returns (hit: bool)
    ensures hit <==> Hits(globs, path)
  {
    hide Denotes, Parse;
    var i := 0;
    while i < |globs|
      invariant 0 <= i <= |globs| && forall j :: 0 <= j < i ==> !Denotes(Parse(globs[j]), path)
    {
      var m := Matches(globs[i], path);
      if m {
        return true;
      }
      i := i + 1;
    }
    return false;
  }

  /** The scope loop tries both candidates for each glob. */
  method InScope(scope: seq<string>, target: string, rel: string) returns (hit: bool)
    ensures hit <==> Hits(scope, target) || Hits(scope, rel)
  {
    hide Denotes, Parse;
    var i := 0;
    while i < |scope|
      invariant 0 <= i <= |scope| && forall j :: 0 <= j < i ==>
                !Denotes(Parse(scope[j]), target) && !Denotes(Parse(scope[j]), rel)
    {
      var m := Matches(scope[i], target);
      var n := false;
      if !m {
        n := Matches(scope[i], rel);
      }
      if m || n {
        return true;
      }
      i := i + 1;
    }
    return false;
  }

  method Decide(target: string, op: string, extraDeny: seq<string>, scope: seq<string>,
      cwd: string) returns (d: Decision)
    ensures d == DecisionOf(target, op, extraDeny, scope, cwd)
  {
    hide Hits;
    var hit := AnyMatch(RED_LINES, target);
    if hit {
      return RedLine;
    }
    hit := AnyMatch(extraDeny, target);
    if hit {
      return UserDeny;
    }
    if FileOp(op) && scope != [] {
      var allowed := InScope(scope, target, Relative(target, cwd));
      if !allowed {
        return OutOfScope;
      }
    }
    return Pass;
  }

  /** Settings only strengthen: a larger deny list never turns a denial into a pass, and a red line holds whatever
      the settings, the scope and the operation are. */
  lemma DenyIsMonotone(target: string, op: string, deny: seq<string>, more: seq<string>, scope: seq<string>,
      cwd: string)
    requires forall g :: g in deny ==> g in more
    ensures DecisionOf(target, op, deny, scope, cwd) != Pass ==> DecisionOf(target, op, more, scope, cwd) != Pass
    ensures DecisionOf(target, op, deny, scope, cwd) == RedLine ==> DecisionOf(target, op, more, scope, cwd) == RedLine
  {
    hide Denotes, Parse;
    if Hits(deny, target) {
      var i :| 0 <= i < |deny| && Denotes(Parse(deny[i]), target);
      assert deny[i] in more;
    }
  }

  lemma HitsMeans(globs: seq<string>, path: string)
    ensures Hits(globs, path) <==> exists g :: g in globs && Denotes(Parse(g), path)
  {
    hide Denotes, Parse;
    if g :| g in globs && Denotes(Parse(g), path) {
      var i :| 0 <= i < |globs| && globs[i] == g;
    }
  }

  /** A target passes if and only if no red line and no extra denial denotes it and, for an operation on files under a
      non-empty scope, some glob of the scope denotes it or its path relative to the working directory. */
  lemma PassExact(target: string, op: string, extraDeny: seq<string>, scope: seq<string>, cwd: string)
    ensures DecisionOf(target, op, extraDeny, scope, cwd) == Pass <==>
            && (forall g :: g in RED_LINES || g in extraDeny ==> !Denotes(Parse(g), target))
            && (op in ["read", "edit", "run", "dispatch"] && scope != [] ==>
                  exists g :: g in scope && (Denotes(Parse(g), target) || Denotes(Parse(g), Relative(target, cwd))))
  {
    hide Hits, Denotes, Parse, Relative, RED_LINES;
    HitsMeans(RED_LINES, target);
    HitsMeans(extraDeny, target);
    HitsMeans(scope, target);
    HitsMeans(scope, Relative(target, cwd));
  }

  /** Each denial names its cause: a red line, whatever the operation, the denials and the scope are; else a denial of
      the settings, whatever the operation and the scope are. */
  lemma DenialExact(target: string, op: string, extraDeny: seq<string>, scope: seq<string>, cwd: string)
    ensures DecisionOf(target, op, extraDeny, scope, cwd) == RedLine <==>
            exists g :: g in RED_LINES && Denotes(Parse(g), target)
    ensures DecisionOf(target, op, extraDeny, scope, cwd) == UserDeny <==>
            && (exists g :: g in extraDeny && Denotes(Parse(g), target))
            && (forall g :: g in RED_LINES ==> !Denotes(Parse(g), target))
  {
    hide Hits, Denotes, Parse, Relative, RED_LINES;
    HitsMeans(RED_LINES, target);
    HitsMeans(extraDeny, target);
  }

  /** A wider scope never turns a pass into a denial. */
  lemma ScopeIsMonotone(target: string, op: string, extraDeny: seq<string>, scope: seq<string>, wider: seq<string>,
      cwd: string)
    requires scope != [] && forall g :: g in scope ==> g in wider
    ensures DecisionOf(target, op, extraDeny, scope, cwd) == Pass ==>
            DecisionOf(target, op, extraDeny, wider, cwd) == Pass
  {
    hide DecisionOf, Denotes, Parse, Relative, RED_LINES;
    PassExact(target, op, extraDeny, scope, cwd);
    PassExact(target, op, extraDeny, wider, cwd);
  }

  predicate AllSlashes(s: string) { forall i :: 0 <= i < |s| ==> s[i] == '/' }

  /** The relative path: an absolute target under the working directory is that directory, slashes, and the relative
      path, which does not start with a slash; any other target is left as it is. */
  lemma RelativeExact(target: string, cwd: string)
    ensures target != "" && target[0] == '/' && cwd <= target ==>
            exists slashes :: AllSlashes(slashes) && target == cwd + slashes + Relative(target, cwd)
    ensures target != "" && target[0] == '/' && cwd <= target && Relative(target, cwd) != "" ==>
            Relative(target, cwd)[0] != '/'
    ensures !(target != "" && target[0] == '/' && cwd <= target) ==> Relative(target, cwd) == target
  {
    if target != "" && target[0] == '/' && cwd <= target {
      var rest := target[|cwd|..];
      var slashes := TrimmedSlashes(rest);
      assert target == cwd + rest && target == cwd + slashes + Relative(target, cwd);
    }
  }

  lemma {:induction false} TrimmedSlashes(s: string) returns (slashes: string)
    ensures AllSlashes(slashes) && s == slashes + TrimSlashes(s) && (TrimSlashes(s) != "" ==> TrimSlashes(s)[0] != '/')
    decreases |s|
  {
    slashes := "";
    if s != "" && s[0] == '/' {
      var rest := TrimmedSlashes(s[1..]);
      slashes := "/" + rest;
    }
  }
}
