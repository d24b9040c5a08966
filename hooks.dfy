/** The thread hook scheduler: for each net of a thread, the `addf` lines of the
    functions hooked into it, keyed by function name in an insertion-ordered map, then
    emitted in the order given by the thread's `order`/`sequence` field. */
module HookScheduler {
  import opened Text
  import opened Netlist
  import opened Output
  import opened Pins

  /** An entry of the `LinkedHashMap<String, String>`: function name and its `addf` line. */
  datatype Hook = Hook(name: string, line: string)

  function Names(m: seq<Hook>): (r: seq<string>)
    ensures |r| == |m| && forall i :: 0 <= i < |m| ==> r[i] == m[i].name
  {
    seq(|m|, i requires 0 <= i < |m| => m[i].name)
  }

  function Lines(m: seq<Hook>): (r: seq<string>)
    ensures |r| == |m| && forall i :: 0 <= i < |m| ==> r[i] == m[i].line
  {
    seq(|m|, i requires 0 <= i < |m| => m[i].line)
  }

  lemma LinesAppend(a: seq<Hook>, b: seq<Hook>)
    ensures Lines(a + b) == Lines(a) + Lines(b)
  {
  }

  predicate DistinctNames(m: seq<Hook>) {
    forall i, j :: 0 <= i < j < |m| ==> m[i].name != m[j].name
  }

  // ---------------------------------------------------------------------------
  // LinkedHashMap.put
  // ---------------------------------------------------------------------------

  /** `put` of a key already present: the entry keeps its place and takes the new line. */
  function Replace(m: seq<Hook>, h: Hook): (r: seq<Hook>)
    ensures |r| == |m|
  {
    seq(|m|, i requires 0 <= i < |m| => if m[i].name == h.name then h else m[i])
  }

  /** `hooks.put(name, line)` on an insertion-ordered map. */
  function Put(m: seq<Hook>, h: Hook): seq<Hook> {
    if h.name in Names(m) then Replace(m, h) else m + [h]
  }

  /** The map after putting every hook, in order, into an empty map. */
  function PutAll(hs: seq<Hook>): seq<Hook> {
    if hs == [] then [] else Put(PutAll(hs[..|hs| - 1]), hs[|hs| - 1])
  }

  /** The names in order of first occurrence, each once. */
  function Dedup(ns: seq<string>): seq<string> {
    if ns == [] then []
    else
      var d := Dedup(ns[..|ns| - 1]);
      if ns[|ns| - 1] in d then d else d + [ns[|ns| - 1]]
  }

  lemma {:induction false} DedupMembers(ns: seq<string>)
    ensures forall x :: x in Dedup(ns) <==> x in ns
    ensures forall i, j :: 0 <= i < j < |Dedup(ns)| ==> Dedup(ns)[i] != Dedup(ns)[j]
  {
    if ns != [] {
      var n := |ns| - 1;
      DedupMembers(ns[..n]);
      assert ns == ns[..n] + [ns[n]];
    }
  }

  /** A repeated hook name keeps the position of its first `put`: the map's key order is
      the order in which names first occur. */
  lemma {:induction false} PutAllKeepsFirstPosition(hs: seq<Hook>)
    ensures Names(PutAll(hs)) == Dedup(Names(hs))
  {
    if hs != [] {
      var n := |hs| - 1;
      var m := PutAll(hs[..n]);
      PutAllKeepsFirstPosition(hs[..n]);
      assert Names(hs)[..n] == Names(hs[..n]);
      if hs[n].name in Names(m) {
        assert Names(Replace(m, hs[n])) == Names(m);
      } else {
        assert Names(m + [hs[n]]) == Names(m) + [hs[n].name];
      }
    }
  }

  /** The map has at most one entry per name, and an entry for every name put into it. */
  lemma PutAllDistinct(hs: seq<Hook>)
    ensures DistinctNames(PutAll(hs))
    ensures forall i :: 0 <= i < |hs| ==> hs[i].name in Names(PutAll(hs))
  {
    PutAllKeepsFirstPosition(hs);
    DedupMembers(Names(hs));
    assert forall i :: 0 <= i < |hs| ==> Names(hs)[i] == hs[i].name;
  }

  /** The line of the last hook named `k`, if any. */
  function LastLine(hs: seq<Hook>, k: string): Option<string> {
    if hs == [] then None
    else if hs[|hs| - 1].name == k then Some(hs[|hs| - 1].line)
    else LastLine(hs[..|hs| - 1], k)
  }

  /** Every entry of the map holds the line of the last hook put under its name. */
  lemma {:induction false} PutAllKeepsLastLine(hs: seq<Hook>)
    ensures forall i :: 0 <= i < |PutAll(hs)| ==> LastLine(hs, PutAll(hs)[i].name) == Some(PutAll(hs)[i].line)
  {
    if hs != [] {
      var n := |hs| - 1;
      var h := hs[n];
      var m := PutAll(hs[..n]);
      PutAllKeepsLastLine(hs[..n]);
      var r := PutAll(hs);
      assert r == Put(m, h);
      forall i | 0 <= i < |r|
        ensures LastLine(hs, r[i].name) == Some(r[i].line)
      {
        if r[i].name != h.name {
          assert r[i] == m[i];
        }
      }
    }
  }

  // ---------------------------------------------------------------------------
  // Emission order
  // ---------------------------------------------------------------------------

  predicate Matches(h: Hook, token: string) {
    StartsWith(h.name, token)
  }

  /** The pending hooks whose name starts with `token`, in map order. */
  function Matched(m: seq<Hook>, token: string): seq<Hook> {
    if m == [] then []
    else Matched(m[..|m| - 1], token) + (if Matches(m[|m| - 1], token) then [m[|m| - 1]] else [])
  }

  /** The pending hooks that stay in the map after `token`, in map order. */
  function Unmatched(m: seq<Hook>, token: string): seq<Hook> {
    if m == [] then []
    else Unmatched(m[..|m| - 1], token) + (if Matches(m[|m| - 1], token) then [] else [m[|m| - 1]])
  }

  /** The emission order of `printThreadHooks` for one net: each token in turn emits and
      removes the pending hooks it prefixes; what is left is emitted in map order. */
  function Schedule(m: seq<Hook>, tokens: seq<string>): seq<Hook>
    decreases |tokens|
  {
    if tokens == [] then m
    else Matched(m, tokens[0]) + Schedule(Unmatched(m, tokens[0]), tokens[1..])
  }

  /** The index of the first token that prefixes `name`, or `|tokens|` when none does. */
  function Rank(name: string, tokens: seq<string>): (r: nat)
    ensures r <= |tokens|
    ensures r < |tokens| ==> StartsWith(name, tokens[r])
    ensures forall k :: 0 <= k < r && k < |tokens| ==> !StartsWith(name, tokens[k])
  {
    if tokens == [] then 0
    else if StartsWith(name, tokens[0]) then 0
    else
      var r := Rank(name, tokens[1..]);
      assert forall k :: 0 < k <= r && k < |tokens| ==> tokens[k] == tokens[1..][k - 1];
      1 + r
  }

  /** The hooks of rank `r`, in map order. */
  function WithRank(m: seq<Hook>, tokens: seq<string>, r: nat): seq<Hook> {
    if m == [] then []
    else
      var h := m[|m| - 1];
      WithRank(m[..|m| - 1], tokens, r) + (if Rank(h.name, tokens) == r then [h] else [])
  }

  /** The reference order: the hooks of rank `r`, then those of rank `r + 1`, and so on up
      to the unmatched ones (rank `|tokens|`), each group in map order. */
  function ByRank(m: seq<Hook>, tokens: seq<string>, r: nat): seq<Hook>
    decreases |tokens| + 1 - r
  {
    if r > |tokens| then [] else WithRank(m, tokens, r) + ByRank(m, tokens, r + 1)
  }

  lemma {:induction false} WithRankNoTokens(m: seq<Hook>)
    ensures WithRank(m, [], 0) == m
  {
    if m != [] {
      WithRankNoTokens(m[..|m| - 1]);
    }
  }

  lemma {:induction false} WithRankFirst(m: seq<Hook>, tokens: seq<string>)
    requires tokens != []
    ensures WithRank(m, tokens, 0) == Matched(m, tokens[0])
  {
    if m != [] {
      WithRankFirst(m[..|m| - 1], tokens);
    }
  }

  lemma {:induction false} WithRankLater(m: seq<Hook>, tokens: seq<string>, r: nat)
    requires tokens != []
    ensures WithRank(m, tokens, r + 1) == WithRank(Unmatched(m, tokens[0]), tokens[1..], r)
  {
    if m != [] {
      var n := |m| - 1;
      var u := Unmatched(m[..n], tokens[0]);
      WithRankLater(m[..n], tokens, r);
      var h := m[n];
      if Matches(h, tokens[0]) {
        assert Rank(h.name, tokens) == 0;
        assert Unmatched(m, tokens[0]) == u;
      } else {
        assert Rank(h.name, tokens) == 1 + Rank(h.name, tokens[1..]);
        var v := u + [h];
        assert Unmatched(m, tokens[0]) == v;
        assert v[..|v| - 1] == u && v[|v| - 1] == h;
        assert WithRank(v, tokens[1..], r)
          == WithRank(u, tokens[1..], r) + (if Rank(h.name, tokens[1..]) == r then [h] else []);
      }
    }
  }

  lemma {:induction false} ByRankLater(m: seq<Hook>, tokens: seq<string>, r: nat)
    requires tokens != []
    ensures ByRank(m, tokens, r + 1) == ByRank(Unmatched(m, tokens[0]), tokens[1..], r)
    decreases |tokens| - r
  {
    var u := Unmatched(m, tokens[0]);
    var t := tokens[1..];
    if r + 1 <= |tokens| {
      WithRankLater(m, tokens, r);
      ByRankLater(m, tokens, r + 1);
      assert ByRank(m, tokens, r + 1) == WithRank(m, tokens, r + 1) + ByRank(m, tokens, r + 2);
      assert ByRank(u, t, r) == WithRank(u, t, r) + ByRank(u, t, r + 1);
    } else {
      assert ByRank(u, t, r) == [];
    }
  }

  /** The emitted hooks are exactly: those the first token prefixes, then those the second
      token prefixes (and the first does not), and so on, with the hooks no token prefixes
      last; each group keeps map order. */
  lemma {:induction false} ScheduleByRank(m: seq<Hook>, tokens: seq<string>)
    ensures Schedule(m, tokens) == ByRank(m, tokens, 0)
    decreases |tokens|
  {
    if tokens == [] {
      WithRankNoTokens(m);
    } else {
      ScheduleByRank(Unmatched(m, tokens[0]), tokens[1..]);
      WithRankFirst(m, tokens);
      ByRankLater(m, tokens, 0);
    }
  }

  lemma {:induction false} SplitPermutes(m: seq<Hook>, token: string)
    ensures multiset(Matched(m, token)) + multiset(Unmatched(m, token)) == multiset(m)
  {
    if m != [] {
      var n := |m| - 1;
      SplitPermutes(m[..n], token);
      assert m == m[..n] + [m[n]];
    }
  }

  /** Every pending hook is emitted exactly once: the emission is a permutation of the map. */
  lemma {:induction false} SchedulePermutes(m: seq<Hook>, tokens: seq<string>)
    ensures multiset(Schedule(m, tokens)) == multiset(m)
    decreases |tokens|
  {
    if tokens != [] {
      SplitPermutes(m, tokens[0]);
      SchedulePermutes(Unmatched(m, tokens[0]), tokens[1..]);
    }
  }

  lemma {:induction false} MatchedByEmpty(m: seq<Hook>)
    ensures Matched(m, "") == m && Unmatched(m, "") == []
  {
    if m != [] {
      MatchedByEmpty(m[..|m| - 1]);
    }
  }

  /** An empty token (from an order field that opens with a delimiter) prefixes every
      name, so it emits the whole map in insertion order and later tokens find nothing. */
  lemma EmptyTokenKeepsMapOrder(m: seq<Hook>, tokens: seq<string>)
    requires tokens != [] && tokens[0] == ""
    ensures Schedule(m, tokens) == m
  {
    MatchedByEmpty(m);
    EmptyMapSchedule(tokens[1..]);
  }

  /** An `order` value that opens with a delimiter (`",u1"`) gives a leading empty token
      or no token at all; either way the hooks are emitted in map order. */
  lemma LeadingDelimKeepsOrder(m: seq<Hook>, value: string)
    requires value != [] && IsDelim(value[0])
    ensures Schedule(m, Split(value)) == m
  {
    SplitLeadingDelim(value);
    if Split(value) != [] {
      EmptyTokenKeepsMapOrder(m, Split(value));
    }
  }

  lemma {:induction false} EmptyMapSchedule(tokens: seq<string>)
    ensures Schedule([], tokens) == []
  {
    if tokens != [] {
      EmptyMapSchedule(tokens[1..]);
    }
  }

  // ---------------------------------------------------------------------------
  // The hooks of one thread net
  // ---------------------------------------------------------------------------

  /** `addf` line of a hook; the position qualifier column is left out when it is empty. */
  function AddfLine(hook: string, thread: string, position: string): string {
    if position == "" then "addf " + PadRight(hook, 20) + "\t" + thread
    else "addf " + PadRight(hook, 20) + "\t" + PadRight(thread, 10) + " " + position
  }

  /** The line without a qualifier is produced exactly when the position is empty. */
  lemma AddfOmitsPositionIff(hook: string, thread: string, position: string)
    ensures AddfLine(hook, thread, position) == "addf " + PadRight(hook, 20) + "\t" + thread
            <==> position == ""
  {
    if position != "" {
      var plain := "addf " + PadRight(hook, 20) + "\t" + thread;
      assert |AddfLine(hook, thread, position)| > |plain|;
    }
  }

  /** The function a node hooks into the thread: for a `loadrt` part the node's pin
      function, otherwise the component's value. */
  function HookName(node: Node, idx: map<string, Component>, libparts: seq<LibPart>): Result<string> {
    var comp :- Lookup(idx, node.ref);
    if IsLoadrt(comp.part) then PinFunction(libparts, node, comp.part) else Ok(comp.value)
  }

  /** The hooks of every `input` node of the net, in node order, before they enter the map. */
  function HookPairs(nodes: seq<Node>, idx: map<string, Component>, libparts: seq<LibPart>,
                     thread: string, position: string): Result<seq<Hook>>
  {
    if nodes == [] then Ok([])
    else
      var first :- if nodes[0].pintype == INPUT then
                     var name :- HookName(nodes[0], idx, libparts);
                     Ok([Hook(name, AddfLine(name, thread, position))])
                   else Ok([]);
      Prepend(first, HookPairs(nodes[1..], idx, libparts, thread, position))
  }

  /** The first node of component `ref` on the net. */
  function FirstNodeOf(nodes: seq<Node>, ref: string): (r: Option<Node>)
    ensures r.None? <==> forall i :: 0 <= i < |nodes| ==> nodes[i].ref != ref
    ensures r.Some? ==>
      exists i :: 0 <= i < |nodes| && nodes[i] == r.value && r.value.ref == ref
                  && forall j :: 0 <= j < i ==> nodes[j].ref != ref
  {
    if nodes == [] then None
    else if nodes[0].ref == ref then Some(nodes[0])
    else
      var r := FirstNodeOf(nodes[1..], ref);
      assert forall j :: 0 < j < |nodes| ==> nodes[j] == nodes[1..][j - 1];
      r
  }

  /** The node found by a scan that stops at the first node of component `ref`. */
  lemma {:induction false} FirstNodeOfIs(nodes: seq<Node>, ref: string, j: nat)
    requires j < |nodes| && nodes[j].ref == ref
    requires forall l :: 0 <= l < j ==> nodes[l].ref != ref
    ensures FirstNodeOf(nodes, ref) == Some(nodes[j])
  {
    if j > 0 {
      assert nodes[0].ref != ref;
      FirstNodeOfIs(nodes[1..], ref, j - 1);
    }
  }

  predicate IsOrderField(f: Field) {
    EqualsIgnoreCase(f.name, ORDER) || EqualsIgnoreCase(f.name, SEQUENCE)
  }

  /** The tokens of the first `order`/`sequence` field (names compared ignoring case), or
      none; no field behaves like an empty token list. */
  function OrderTokens(fields: seq<Field>): seq<string> {
    if fields == [] then []
    else if IsOrderField(fields[0]) then Split(fields[0].value)
    else OrderTokens(fields[1..])
  }

  /** The hook map of a net: every hook of an `input` node put, in node order, into an
      empty insertion-ordered map. */
  function HookMap(nodes: seq<Node>, idx: map<string, Component>, libparts: seq<LibPart>,
                   thread: string, position: string): Result<seq<Hook>>
  {
    var pairs :- HookPairs(nodes, idx, libparts, thread, position);
    Ok(PutAll(pairs))
  }

  /** The lines one net adds for a thread: nothing when the thread has no node on it;
      otherwise its hook map, scheduled by the order field of the indexed thread. */
  function NetHookLines(thread: Component, net: Net, idx: map<string, Component>, libparts: seq<LibPart>)
    : Result<seq<string>>
  {
    match FirstNodeOf(net.nodes, thread.ref)
    case None => Ok([])
    case Some(tn) =>
      var position :- PinFunction(libparts, tn, THREAD);
      var hooks :- HookMap(net.nodes, idx, libparts, thread.value, position);
      var threadComp :- Lookup(idx, thread.ref);
      Ok(Lines(Schedule(hooks, OrderTokens(threadComp.fields))))
  }

  /** The lines of one thread over all nets, in net order. */
  function ThreadHookLines(thread: Component, nets: seq<Net>, idx: map<string, Component>, libparts: seq<LibPart>)
    : Result<seq<string>>
  {
    if nets == [] then Ok([])
    else
      var first :- NetHookLines(thread, nets[0], idx, libparts);
      Prepend(first, ThreadHookLines(thread, nets[1..], idx, libparts))
  }

  /** The lines a component adds to the hook section: those of its nets for a `thread`,
      none for any other part. */
  function ComponentHookLines(comp: Component, nets: seq<Net>, idx: map<string, Component>, libparts: seq<LibPart>)
    : Result<seq<string>>
  {
    if comp.part == THREAD then ThreadHookLines(comp, nets, idx, libparts) else Ok([])
  }

  /** The body of the hook section: every `thread` component in component order. */
  function HookSection(comps: seq<Component>, nets: seq<Net>, idx: map<string, Component>, libparts: seq<LibPart>)
    : Result<seq<string>>
  {
    if comps == [] then Ok([])
    else
      var first :- ComponentHookLines(comps[0], nets, idx, libparts);
      Prepend(first, HookSection(comps[1..], nets, idx, libparts))
  }

  /** One step of a loop that prints the nets of a thread one after the other. */
  lemma ThreadHookLinesStep(thread: Component, nets: seq<Net>, idx: map<string, Component>, libparts: seq<LibPart>,
                            i: nat, done: seq<string>)
    requires i < |nets|
    requires ThreadHookLines(thread, nets, idx, libparts) == Prepend(done, ThreadHookLines(thread, nets[i..], idx, libparts))
    ensures var first := NetHookLines(thread, nets[i], idx, libparts);
      ThreadHookLines(thread, nets, idx, libparts)
      == if first.Err? then Err(first.failure)
         else Prepend(done + first.value, ThreadHookLines(thread, nets[i + 1..], idx, libparts))
  {
    assert nets[i..][0] == nets[i] && nets[i..][1..] == nets[i + 1..];
    PrependStep(ThreadHookLines(thread, nets, idx, libparts), done, NetHookLines(thread, nets[i], idx, libparts),
                ThreadHookLines(thread, nets[i + 1..], idx, libparts));
  }

  /** One step of a loop that prints the components one after the other. */
  lemma HookSectionStep(comps: seq<Component>, nets: seq<Net>, idx: map<string, Component>, libparts: seq<LibPart>,
                        i: nat, done: seq<string>)
    requires i < |comps|
    requires HookSection(comps, nets, idx, libparts) == Prepend(done, HookSection(comps[i..], nets, idx, libparts))
    ensures var first := ComponentHookLines(comps[i], nets, idx, libparts);
      HookSection(comps, nets, idx, libparts)
      == if first.Err? then Err(first.failure)
         else Prepend(done + first.value, HookSection(comps[i + 1..], nets, idx, libparts))
  {
    assert comps[i..][0] == comps[i] && comps[i..][1..] == comps[i + 1..];
    PrependStep(HookSection(comps, nets, idx, libparts), done, ComponentHookLines(comps[i], nets, idx, libparts),
                HookSection(comps[i + 1..], nets, idx, libparts));
  }
}
