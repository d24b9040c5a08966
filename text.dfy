/** String helpers with the meaning the Java library gives them in the translator:
    prefix and suffix tests, `%-Ns` padding, `%d` for counts, ASCII case-insensitive
    comparison, `indexOf` for one character and `split("[,; ]+")`. */
module Text {

  /** `s.startsWith(p)`: every string starts with the empty string. */
  predicate StartsWith(s: string, p: string) {
    |p| <= |s| && s[..|p|] == p
  }

  /** `s.endsWith(p)`. */
  predicate EndsWith(s: string, p: string) {
    |p| <= |s| && s[|s| - |p|..] == p
  }

  function Spaces(n: nat): (r: string)
    ensures |r| == n && forall i :: 0 <= i < n ==> r[i] == ' '
  {
    if n == 0 then "" else Spaces(n - 1) + " "
  }

  /** `String.format("%-<w>s", s)`: left-justified, padded with spaces on the right up to
      width `w`, never truncated. */
  function PadRight(s: string, w: nat): (r: string)
    ensures |r| == if |s| < w then w else |s|
    ensures r[..|s|] == s
    ensures forall i :: |s| <= i < |r| ==> r[i] == ' '
  {
    if |s| < w then s + Spaces(w - |s|) else s
  }

  function DigitChar(d: nat): char
    requires d < 10
  {
    "0123456789"[d]
  }

  /** `%d` of a non-negative integer: its decimal digits, most significant first. */
  function Decimal(n: nat): (r: string)
    ensures 1 <= |r|
    ensures forall i :: 0 <= i < |r| ==> '0' <= r[i] <= '9'
  {
    if n < 10 then [DigitChar(n)] else Decimal(n / 10) + [DigitChar(n % 10)]
  }

  /** `Character.isDigit`, restricted to the ASCII digits. */
  predicate IsDigit(c: char) {
    '0' <= c <= '9'
  }

  /** ASCII lower-casing, the part of `Character.toLowerCase` the field names rely on. */
  function LowerAscii(c: char): char {
    if 'A' <= c <= 'Z' then (c as int + 32) as char else c
  }

  /** `a.equalsIgnoreCase(b)` over ASCII letters. */
  predicate EqualsIgnoreCase(a: string, b: string) {
    |a| == |b| && forall i :: 0 <= i < |a| ==> LowerAscii(a[i]) == LowerAscii(b[i])
  }

  /** `s.indexOf(c)`: the first position of `c`, or -1 when there is none. */
  function IndexOf(s: string, c: char): (r: int)
    ensures -1 <= r < |s|
    ensures r == -1 <==> c !in s
    ensures r >= 0 ==> s[r] == c && c !in s[..r]
  {
    if s == [] then -1
    else if s[0] == c then 0
    else
      var k := IndexOf(s[1..], c);
      assert s[1..][..k + 1] == s[1..k + 2] by { assert s[..0] == []; }
      if k < 0 then -1 else k + 1
  }

  function Repeat(line: string, n: nat): (r: seq<string>)
    ensures |r| == n && forall i :: 0 <= i < n ==> r[i] == line
  {
    if n == 0 then [] else Repeat(line, n - 1) + [line]
  }

  // ---------------------------------------------------------------------------
  // String.split("[,; ]+")
  // ---------------------------------------------------------------------------

  /** A character of the class `[,; ]` that separates the tokens of an order field. */
  predicate IsDelim(c: char) {
    c == ',' || c == ';' || c == ' '
  }

  predicate NoDelim(s: string) {
    forall i :: 0 <= i < |s| ==> !IsDelim(s[i])
  }

  /** Position of the first delimiter, or `|s|` when there is none. */
  function FirstDelim(s: string): (k: nat)
    ensures k <= |s| && NoDelim(s[..k])
    ensures k < |s| ==> IsDelim(s[k])
  {
    if s == [] then 0
    else if IsDelim(s[0]) then 0
    else
      var k := FirstDelim(s[1..]);
      assert s[..k + 1] == [s[0]] + s[1..][..k];
      k + 1
  }

  /** Drops the leading run of delimiters. */
  function SkipDelims(s: string): (r: string)
    ensures |r| <= |s| && r == s[|s| - |r|..]
    ensures r == [] || !IsDelim(r[0])
    ensures forall i :: 0 <= i < |s| - |r| ==> IsDelim(s[i])
  {
    if s != [] && IsDelim(s[0]) then SkipDelims(s[1..]) else s
  }

  /** The pieces between maximal runs of delimiters, empty ones included. */
  function Pieces(s: string): (r: seq<string>)
    ensures |r| >= 1
    decreases |s|
  {
    var k := FirstDelim(s);
    if k == |s| then [s] else [s[..k]] + Pieces(SkipDelims(s[k..]))
  }

  /** Java removes all trailing empty strings from the result of `split`. */
  function DropTrailingEmpty(ts: seq<string>): (r: seq<string>)
    ensures |r| <= |ts| && r == ts[..|r|]
    ensures r == [] || r[|r| - 1] != ""
    ensures forall i :: |r| <= i < |ts| ==> ts[i] == ""
  {
    if ts != [] && ts[|ts| - 1] == "" then DropTrailingEmpty(ts[..|ts| - 1]) else ts
  }

  /** `s.split("[,; ]+")`: when the pattern does not occur the result is `[s]` (so `""`
      gives `[""]`); otherwise the pieces between delimiter runs, where a leading run
      yields a leading empty token and trailing empty tokens are removed. */
  function Split(s: string): seq<string> {
    if FirstDelim(s) == |s| then [s] else DropTrailingEmpty(Pieces(s))
  }

  /** Concatenation of a sequence of strings. */
  function Concat(ts: seq<string>): string {
    if ts == [] then "" else ts[0] + Concat(ts[1..])
  }

  /** The characters of `s` that are not delimiters, in order. */
  function NonDelims(s: string): string {
    if s == [] then "" else (if IsDelim(s[0]) then "" else [s[0]]) + NonDelims(s[1..])
  }

  lemma {:induction false} NonDelimsAppend(a: string, b: string)
    ensures NonDelims(a + b) == NonDelims(a) + NonDelims(b)
  {
    if a == [] {
      assert a + b == b;
    } else {
      assert (a + b)[1..] == a[1..] + b;
      NonDelimsAppend(a[1..], b);
    }
  }

  lemma {:induction false} NonDelimsOfToken(s: string)
    requires NoDelim(s)
    ensures NonDelims(s) == s
  {
    if s != [] {
      NonDelimsOfToken(s[1..]);
    }
  }

  lemma {:induction false} NonDelimsSkip(s: string)
    ensures NonDelims(SkipDelims(s)) == NonDelims(s)
  {
    if s != [] && IsDelim(s[0]) {
      NonDelimsSkip(s[1..]);
    }
  }

  lemma {:induction false} ConcatAppend(a: seq<string>, b: seq<string>)
    ensures Concat(a + b) == Concat(a) + Concat(b)
  {
    if a == [] {
      assert a + b == b;
    } else {
      assert (a + b)[1..] == a[1..] + b;
      ConcatAppend(a[1..], b);
    }
  }

  lemma {:induction false} ConcatOfEmpties(ts: seq<string>)
    requires forall i :: 0 <= i < |ts| ==> ts[i] == ""
    ensures Concat(ts) == ""
  {
    if ts != [] {
      ConcatOfEmpties(ts[1..]);
    }
  }

  lemma {:induction false} PiecesConcat(s: string)
    ensures Concat(Pieces(s)) == NonDelims(s)
    decreases |s|
  {
    var k := FirstDelim(s);
    assert s == s[..k] + s[k..];
    NonDelimsAppend(s[..k], s[k..]);
    NonDelimsOfToken(s[..k]);
    if k == |s| {
      assert Concat([s]) == s + Concat([]);
      assert NonDelims(s[k..]) == "";
    } else {
      var rest := SkipDelims(s[k..]);
      PiecesConcat(rest);
      NonDelimsSkip(s[k..]);
      assert Pieces(s) == [s[..k]] + Pieces(rest);
      assert ([s[..k]] + Pieces(rest))[1..] == Pieces(rest);
    }
  }

  lemma {:induction false} PiecesNoDelim(s: string)
    ensures forall i :: 0 <= i < |Pieces(s)| ==> NoDelim(Pieces(s)[i])
    decreases |s|
  {
    var k := FirstDelim(s);
    if k < |s| {
      PiecesNoDelim(SkipDelims(s[k..]));
    }
  }

  /** A string that does not start with a delimiter has a non-empty first piece. */
  lemma PiecesHeadNonEmpty(s: string)
    requires s != [] && !IsDelim(s[0])
    ensures Pieces(s)[0] != ""
  {
    assert FirstDelim(s) == FirstDelim(s[1..]) + 1;
    var k := FirstDelim(s);
    assert Pieces(s)[0] == s[..k];
    assert s[..k][0] == s[0];
  }

  /** Only the first and the last piece can be empty. */
  lemma {:induction false} PiecesInnerNonEmpty(s: string)
    ensures forall i :: 0 < i < |Pieces(s)| - 1 ==> Pieces(s)[i] != ""
    ensures (s != [] && !IsDelim(s[0])) ==> Pieces(s)[0] != ""
    decreases |s|
  {
    if s != [] && !IsDelim(s[0]) {
      PiecesHeadNonEmpty(s);
    }
    var k := FirstDelim(s);
    if k < |s| {
      var rest := SkipDelims(s[k..]);
      var pr := Pieces(rest);
      PiecesInnerNonEmpty(rest);
      var p := Pieces(s);
      assert p == [s[..k]] + pr;
      if |pr| > 1 {
        assert FirstDelim(rest) < |rest|;
        PiecesHeadNonEmpty(rest);
      }
      forall i | 0 < i < |p| - 1
        ensures p[i] != ""
      {
        assert p[i] == pr[i - 1];
      }
    }
  }

  /** Dropping trailing empty tokens does not change the concatenation. */
  lemma {:induction false} DropTrailingConcat(ts: seq<string>)
    ensures Concat(DropTrailingEmpty(ts)) == Concat(ts)
  {
    if ts != [] && ts[|ts| - 1] == "" {
      var n := |ts| - 1;
      DropTrailingConcat(ts[..n]);
      assert ts == ts[..n] + [""];
      ConcatAppend(ts[..n], [""]);
      assert Concat([""]) == "" + Concat([]);
    }
  }

  lemma {:induction false} SplitConcat(s: string)
    ensures Concat(Split(s)) == NonDelims(s)
  {
    var k := FirstDelim(s);
    if k == |s| {
      assert s[..k] == s;
      NonDelimsOfToken(s);
      assert Split(s) == [s];
      assert Concat([s]) == s + Concat([]);
    } else {
      assert Split(s) == DropTrailingEmpty(Pieces(s));
      DropTrailingConcat(Pieces(s));
      PiecesConcat(s);
    }
  }

  lemma {:induction false} SplitShape(s: string)
    ensures forall i :: 0 <= i < |Split(s)| ==> NoDelim(Split(s)[i])
    ensures forall i :: 0 < i < |Split(s)| ==> Split(s)[i] != ""
    ensures 0 < |Split(s)| && Split(s)[0] == "" ==> s == "" || IsDelim(s[0])
  {
    var k := FirstDelim(s);
    if k == |s| {
      assert s[..k] == s;
      assert Split(s) == [s];
    } else {
      var p := Pieces(s);
      var r := DropTrailingEmpty(p);
      assert Split(s) == r;
      PiecesNoDelim(s);
      PiecesInnerNonEmpty(s);
      forall i | 0 <= i < |r|
        ensures r[i] == p[i]
      {
        assert r[i] == p[..|r|][i];
      }
    }
  }

  /** What `Split` promises: its tokens hold no delimiter, together they hold exactly the
      non-delimiter characters of the input, in order, and only the first token can be
      empty, which happens only when the input is empty or opens with a delimiter. */
  lemma SplitTokens(s: string)
    ensures var r := Split(s);
      && (forall i :: 0 <= i < |r| ==> NoDelim(r[i]))
      && Concat(r) == NonDelims(s)
      && (forall i :: 0 < i < |r| ==> r[i] != "")
      && (0 < |r| && r[0] == "" ==> s == "" || IsDelim(s[0]))
  {
    SplitConcat(s);
    SplitShape(s);
  }

  // ---------------------------------------------------------------------------
  // Where `Split` breaks: a value written as tokens between delimiter runs
  // ---------------------------------------------------------------------------

  predicate AllDelims(s: string) {
    forall i :: 0 <= i < |s| ==> IsDelim(s[i])
  }

  /** A token as `split` returns it from the middle of a value: non-empty, no delimiter. */
  predicate IsToken(t: string) {
    t != "" && NoDelim(t)
  }

  /** The tokens `ts` with the separator `seps[i]` between `ts[i]` and `ts[i + 1]`. */
  function JoinWith(ts: seq<string>, seps: seq<string>): string
    requires |ts| >= 1 && |seps| == |ts| - 1
    decreases |ts|
  {
    if |ts| == 1 then ts[0] else ts[0] + seps[0] + JoinWith(ts[1..], seps[1..])
  }

  lemma {:induction false} JoinWithStarts(ts: seq<string>, seps: seq<string>)
    requires |ts| >= 1 && |seps| == |ts| - 1 && ts[0] != ""
    ensures JoinWith(ts, seps) != "" && JoinWith(ts, seps)[0] == ts[0][0]
  {
  }

  /** A token followed by nothing or by a delimiter: the first delimiter ends the token. */
  lemma {:induction false} FirstDelimAfterToken(t: string, u: string)
    requires NoDelim(t) && (u == [] || IsDelim(u[0]))
    ensures FirstDelim(t + u) == |t|
  {
    if t == [] {
      assert t + u == u;
    } else {
      assert (t + u)[1..] == t[1..] + u;
      FirstDelimAfterToken(t[1..], u);
    }
  }

  /** A run of delimiters in front of a token, or of nothing, is skipped entirely. */
  lemma {:induction false} SkipDelimsRun(d: string, u: string)
    requires AllDelims(d) && (u == [] || !IsDelim(u[0]))
    ensures SkipDelims(d + u) == u
  {
    if d == [] {
      assert d + u == u;
    } else {
      assert (d + u)[1..] == d[1..] + u;
      SkipDelimsRun(d[1..], u);
    }
  }

  /** A token, then a delimiter run, then a token: the first piece is the token and the
      pieces go on from the next token. */
  lemma PiecesAfterToken(t: string, sep: string, rest: string)
    requires NoDelim(t) && sep != "" && AllDelims(sep) && (rest == [] || !IsDelim(rest[0]))
    ensures Pieces(t + sep + rest) == [t] + Pieces(rest)
  {
    var s := t + sep + rest;
    var u := sep + rest;
    assert s == t + u;
    FirstDelimAfterToken(t, u);
    assert s[..|t|] == t && s[|t|..] == u;
    SkipDelimsRun(sep, rest);
  }

  /** A leading delimiter run gives an empty first piece. */
  lemma PiecesAfterRun(lead: string, x: string)
    requires lead != "" && AllDelims(lead) && (x == [] || !IsDelim(x[0]))
    ensures Pieces(lead + x) == [""] + Pieces(x)
  {
    var s := lead + x;
    assert s[0] == lead[0];
    assert FirstDelim(s) == 0;
    assert s[..0] == "" && s[0..] == s;
    SkipDelimsRun(lead, x);
  }

  /** A token with nothing after it is the only piece. */
  lemma PiecesOfToken(t: string)
    requires NoDelim(t)
    ensures Pieces(t) == [t]
  {
    FirstDelimAfterToken(t, "");
    assert t + "" == t;
  }

  /** One token and an optional trailing run: the token, plus an empty piece for the run. */
  lemma PiecesOfLastToken(t: string, trail: string)
    requires NoDelim(t) && AllDelims(trail)
    ensures Pieces(t + trail) == [t] + (if trail == [] then [] else [""])
  {
    if trail == [] {
      assert t + trail == t;
      PiecesOfToken(t);
    } else {
      assert t + trail + "" == t + trail;
      PiecesAfterToken(t, trail, "");
      PiecesOfToken("");
    }
  }

  /** Splitting off the first token and separator of a joined value. */
  lemma JoinWithFirst(ts: seq<string>, seps: seq<string>, trail: string)
    requires |ts| >= 2 && |seps| == |ts| - 1
    ensures JoinWith(ts, seps) + trail == ts[0] + seps[0] + (JoinWith(ts[1..], seps[1..]) + trail)
  {
  }

  /** The pieces of tokens joined by delimiter runs, with an optional trailing run, are the
      tokens, plus one empty piece when the trailing run is there. */
  lemma {:induction false} PiecesJoined(ts: seq<string>, seps: seq<string>, trail: string)
    requires |ts| >= 1 && |seps| == |ts| - 1
    requires forall i :: 0 <= i < |ts| ==> IsToken(ts[i])
    requires forall i :: 0 <= i < |seps| ==> seps[i] != "" && AllDelims(seps[i])
    requires AllDelims(trail)
    ensures Pieces(JoinWith(ts, seps) + trail) == ts + (if trail == [] then [] else [""])
    decreases |ts|
  {
    var tail: seq<string> := if trail == [] then [] else [""];
    if |ts| == 1 {
      assert IsToken(ts[0]);
      PiecesOfLastToken(ts[0], trail);
      assert ts == [ts[0]];
    } else {
      var rest := JoinWith(ts[1..], seps[1..]) + trail;
      JoinWithStarts(ts[1..], seps[1..]);
      assert IsToken(ts[0]) && IsToken(ts[1]);
      assert rest[0] == ts[1][0];
      calc {
        Pieces(JoinWith(ts, seps) + trail);
        { JoinWithFirst(ts, seps, trail); }
        Pieces(ts[0] + seps[0] + rest);
        { PiecesAfterToken(ts[0], seps[0], rest); }
        [ts[0]] + Pieces(rest);
        { PiecesJoined(ts[1..], seps[1..], trail); }
        [ts[0]] + (ts[1..] + tail);
        { assert ts == [ts[0]] + ts[1..]; }
        ts + tail;
      }
    }
  }

  lemma DropTrailingKeeps(ts: seq<string>, tail: seq<string>)
    requires ts != [] && ts[|ts| - 1] != "" && (tail == [] || tail == [""])
    ensures DropTrailingEmpty(ts + tail) == ts
  {
    if tail == [""] {
      assert (ts + tail)[..|ts|] == ts;
    } else {
      assert ts + tail == ts;
    }
  }

  /** A value opening with a delimiter is split by way of its pieces. */
  lemma SplitOfDelimStart(s: string)
    requires s != [] && IsDelim(s[0])
    ensures Split(s) == DropTrailingEmpty(Pieces(s))
  {
    assert FirstDelim(s) == 0;
  }

  /** An empty piece in front of tokens and at most one empty piece survives the dropping. */
  lemma DropTrailingAfterEmpty(ts: seq<string>, tail: seq<string>)
    requires ts != [] && ts[|ts| - 1] != "" && (tail == [] || tail == [""])
    ensures DropTrailingEmpty([""] + (ts + tail)) == [""] + ts
  {
    assert [""] + (ts + tail) == [""] + ts + tail;
    DropTrailingKeeps([""] + ts, tail);
  }

  /** A leading delimiter run in front of a value whose pieces are tokens followed by at
      most one empty piece: `split` gives an empty token, then those tokens. */
  lemma SplitAfterRun(lead: string, x: string, ts: seq<string>, tail: seq<string>)
    requires lead != "" && AllDelims(lead) && x != [] && !IsDelim(x[0])
    requires ts != [] && ts[|ts| - 1] != "" && (tail == [] || tail == [""])
    requires Pieces(x) == ts + tail
    ensures Split(lead + x) == [""] + ts
  {
    assert (lead + x)[0] == lead[0];
    SplitOfDelimStart(lead + x);
    PiecesAfterRun(lead, x);
    DropTrailingAfterEmpty(ts, tail);
  }

  /** `split` inverts the writing of a value as tokens separated by delimiter runs: the
      tokens come back exactly, a leading run adds one empty token in front, and a trailing
      run adds nothing. */
  lemma SplitJoined(lead: string, ts: seq<string>, seps: seq<string>, trail: string)
    requires |ts| >= 1 && |seps| == |ts| - 1
    requires forall i :: 0 <= i < |ts| ==> IsToken(ts[i])
    requires forall i :: 0 <= i < |seps| ==> seps[i] != "" && AllDelims(seps[i])
    requires AllDelims(lead) && AllDelims(trail)
    ensures Split(lead + JoinWith(ts, seps) + trail) == (if lead == [] then [] else [""]) + ts
  {
    var x := JoinWith(ts, seps) + trail;
    assert lead + JoinWith(ts, seps) + trail == lead + x;
    var tail := if trail == [] then [] else [""];
    PiecesJoined(ts, seps, trail);
    assert IsToken(ts[|ts| - 1]);
    if lead == [] {
      assert lead + x == x;
      SplitOfPieces(x, ts, tail);
    } else {
      JoinWithStarts(ts, seps);
      assert IsToken(ts[0]);
      SplitAfterRun(lead, x, ts, tail);
    }
  }

  /** A value whose pieces are tokens followed by at most one empty piece splits into
      those tokens. */
  lemma SplitOfPieces(x: string, ts: seq<string>, tail: seq<string>)
    requires ts != [] && ts[|ts| - 1] != "" && (tail == [] || tail == [""])
    requires Pieces(x) == ts + tail
    ensures Split(x) == ts
  {
    if FirstDelim(x) < |x| {
      DropTrailingKeeps(ts, tail);
    } else {
      assert Pieces(x) == [x];
      assert |ts + tail| == 1;
    }
  }

  /** A value that opens with a delimiter splits into nothing when it has no other
      character, and otherwise into tokens of which the first is empty. */
  lemma SplitLeadingDelim(s: string)
    requires s != [] && IsDelim(s[0])
    ensures Split(s) == [] <==> NonDelims(s) == ""
    ensures Split(s) != [] ==> Split(s)[0] == ""
  {
    var r := Split(s);
    assert FirstDelim(s) == 0;
    var p := Pieces(s);
    assert p[0] == "";
    assert r == DropTrailingEmpty(p);
    SplitConcat(s);
    SplitShape(s);
    if r != [] {
      assert r[0] == p[0];
      assert Concat(r) == r[0] + Concat(r[1..]);
      if |r| >= 2 {
        assert Concat(r[1..]) == r[1] + Concat(r[2..]);
      }
    }
  }
}
