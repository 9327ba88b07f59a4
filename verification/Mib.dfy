/** Resolving the OID definitions of a MIB module to numeric OIDs. Definitions may
    refer to symbols declared later, so resolution runs to a fixpoint. */
module Mib {
  import opened Decimal
  import opened Shared

  type Oid = seq<nat>

  type Table = map<string, Oid>

  /** One definition `name ... ::= { tokens }`. */
  datatype Raw = Raw(name: string, tokens: seq<string>)

  /** The SMI roots. */
  const BASE: Table := map[
    "iso" := [1],
    "org" := [1, 3],
    "dod" := [1, 3, 6],
    "internet" := [1, 3, 6, 1],
    "directory" := [1, 3, 6, 1, 1],
    "mgmt" := [1, 3, 6, 1, 2],
    "mib-2" := [1, 3, 6, 1, 2, 1],
    "transmission" := [1, 3, 6, 1, 2, 1, 10],
    "experimental" := [1, 3, 6, 1, 3],
    "private" := [1, 3, 6, 1, 4],
    "enterprises" := [1, 3, 6, 1, 4, 1],
    "security" := [1, 3, 6, 1, 5],
    "snmpV2" := [1, 3, 6, 1, 6],
    "snmpModules" := [1, 3, 6, 1, 6, 3],
    "host" := [1, 3, 6, 1, 2, 1, 25]
  ]

  // ---------------------------------------------------------------------
  // Tokens
  // ---------------------------------------------------------------------

  datatype Token = Arc(n: nat) | Ref(symbol: string) | Unexpected

  predicate IsLetter(c: char) {
    'A' <= c <= 'Z' || 'a' <= c <= 'z'
  }

  /** `[\w-]`. */
  predicate IsNameChar(c: char) {
    IsLetter(c) || '0' <= c <= '9' || c == '_' || c == '-'
  }

  predicate AllNameChars(s: string) {
    forall i :: 0 <= i < |s| ==> IsNameChar(s[i])
  }

  /** The position of the first opening parenthesis, or the length. */
  function Paren(s: string): (i: nat)
    ensures i <= |s|
  {
    if s == "" || s[0] == '(' then 0 else 1 + Paren(s[1..])
  }

  /** The number in `label(number)`. */
  function Labelled(tk: string): Option<nat> {
    var p := Paren(tk);
    if 0 < p && p + 2 < |tk| && AllNameChars(tk[..p]) && tk[|tk| - 1] == ')' && AllDigits(tk[p + 1..|tk| - 1])
    then Some(Number(tk[p + 1..|tk| - 1]))
    else None
  }

  function Classify(tk: string): Token {
    if tk != "" && AllDigits(tk) then Arc(Number(tk))
    else if Labelled(tk).Some? then Arc(Labelled(tk).value)
    else if tk != "" && IsLetter(tk[0]) && AllNameChars(tk) then Ref(tk)
    else Unexpected
  }

  // ---------------------------------------------------------------------
  // One definition against a table
  // ---------------------------------------------------------------------

  /** The concatenation of what the tokens stand for, if all of them are known. */
  function Expand(tokens: seq<string>, table: Table): Option<Oid> {
    if tokens == [] then Some([])
    else match Expand(tokens[..|tokens| - 1], table)
      case None => None
      case Some(oid) => match Classify(tokens[|tokens| - 1])
        case Arc(n) => Some(oid + [n])
        case Ref(s) => if s in table then Some(oid + table[s]) else None
        case Unexpected => None
  }

  function Resolve(tokens: seq<string>, table: Table): Option<Oid> {
    var e := Expand(tokens, table);
    if e.Some? && e.value != [] then e else None
  }

  method ResolveTokens(tokens: seq<string>, table: Table) returns (r: Option<Oid>)
    ensures r == Resolve(tokens, table)
  {
    var out: Oid := [];
    for i := 0 to |tokens|
      invariant Expand(tokens[..i], table) == Some(out)
    {
      assert tokens[..i + 1][..i] == tokens[..i];
      match Classify(tokens[i]) {
        case Arc(n) =>
          out := out + [n];
        case Ref(s) =>
          if s !in table {
            ExpandStuck(tokens, table, i);
            return None;
          }
          out := out + table[s];
        case Unexpected =>
          ExpandStuck(tokens, table, i);
          return None;
      }
    }
    assert tokens[..|tokens|] == tokens;
    return if out != [] then Some(out) else None;
  }

  lemma {:induction false} ExpandStuck(tokens: seq<string>, table: Table, i: nat)
    requires i < |tokens| && !Usable(tokens[i], table.Keys)
    ensures Expand(tokens, table) == None
  {
    if i < |tokens| - 1 {
      ExpandStuck(tokens[..|tokens| - 1], table, i);
    }
  }

  // ---------------------------------------------------------------------
  // The pass loop
  // ---------------------------------------------------------------------

  ghost predicate Agrees(small: Table, large: Table) {
    forall s :: s in small ==> s in large && large[s] == small[s]
  }

  /** A table no definition can add to or disagree with. */
  ghost predicate Closed(raws: seq<Raw>, table: Table) {
    && Agrees(BASE, table)
    && forall r :: r in raws && r.name !in BASE && Resolve(r.tokens, table).Some? ==>
      r.name in table && table[r.name] == Resolve(r.tokens, table).value
  }

  predicate Usable(tk: string, known: set<string>) {
    var t := Classify(tk);
    t.Arc? || (t.Ref? && t.symbol in known)
  }

  /** A definition becomes resolvable once all symbols it names are known. */
  predicate Ready(tokens: seq<string>, known: set<string>) {
    tokens != [] && forall i :: 0 <= i < |tokens| ==> Usable(tokens[i], known)
  }

  ghost predicate ClosedNames(raws: seq<Raw>, known: set<string>) {
    && BASE.Keys <= known
    && forall r :: r in raws && Ready(r.tokens, known) ==> r.name in known
  }

  /** What holds of the table throughout: it extends the roots, every entry is
      accounted for by a definition, and no closed table or set of names is smaller. */
  ghost predicate Sound(raws: seq<Raw>, table: Table) {
    && Agrees(BASE, table)
    && (forall s :: s in table ==> table[s] != [])
    && (forall s :: s in table && s !in BASE ==>
      exists r :: r in raws && r.name == s && Resolve(r.tokens, table) == Some(table[s]))
    && (forall t :: Closed(raws, t) ==> Agrees(table, t))
    && (forall k :: ClosedNames(raws, k) ==> table.Keys <= k)
  }

  ghost predicate Stuck(raw: Raw, table: Table) {
    raw.name in table || Resolve(raw.tokens, table) == None
  }

  function NamesOf(raws: seq<Raw>): set<string> {
    set r | r in raws :: r.name
  }

  method ResolveAll(raws: seq<Raw>) returns (table: Table)
    ensures Sound(raws, table)
    ensures forall r :: r in raws ==> Stuck(r, table)
  {
    hide Sound, Resolve, Stuck;
    table := BASE;
    SoundAtStart(raws);
    var changed := true;
    while changed
      invariant Sound(raws, table)
      invariant !changed ==> forall j :: 0 <= j < |raws| ==> Stuck(raws[j], table)
      decreases NamesOf(raws) - table.Keys, changed
    {
      changed := false;
      ghost var before := table;
      for i := 0 to |raws|
        invariant Sound(raws, table)
        invariant before.Keys <= table.Keys
        invariant !changed ==> table == before && forall j :: 0 <= j < i ==> Stuck(raws[j], table)
        invariant changed ==> NamesOf(raws) - table.Keys < NamesOf(raws) - before.Keys
      {
        var r := raws[i];
        StuckIff(r, table);
        if r.name !in table {
          var arr := ResolveTokens(r.tokens, table);
          if arr.Some? {
            SoundExtends(raws, table, r);
            assert r.name in NamesOf(raws) - table.Keys;
            table := table[r.name := arr.value];
            changed := true;
          }
        }
      }
    }
  }

  lemma StuckIff(raw: Raw, table: Table)
    ensures Stuck(raw, table) <==> raw.name in table || Resolve(raw.tokens, table) == None
  {
  }

  lemma SoundAtStart(raws: seq<Raw>)
    ensures Sound(raws, BASE)
  {
  }

  lemma {:induction false} ExpandMonotone(tokens: seq<string>, small: Table, large: Table)
    requires Agrees(small, large) && Expand(tokens, small).Some?
    ensures Expand(tokens, large) == Expand(tokens, small)
  {
    if tokens != [] {
      ExpandMonotone(tokens[..|tokens| - 1], small, large);
    }
  }

  /** With non-empty entries, resolving needs nothing but the names. */
  lemma {:induction false} ExpandReady(tokens: seq<string>, table: Table)
    requires forall s :: s in table ==> table[s] != []
    ensures tokens != [] ==> (Resolve(tokens, table).Some? <==> Ready(tokens, table.Keys))
    ensures tokens == [] ==> Resolve(tokens, table).None? && Expand(tokens, table) == Some([])
  {
    if tokens != [] {
      var init, last := tokens[..|tokens| - 1], tokens[|tokens| - 1];
      ExpandReady(init, table);
      if Ready(tokens, table.Keys) {
        assert Usable(last, table.Keys);
        assert init != [] ==> Ready(init, table.Keys);
      } else if Usable(last, table.Keys) {
        var i :| 0 <= i < |tokens| && !Usable(tokens[i], table.Keys);
        ExpandStuck(tokens, table, i);
      } else {
        ExpandStuck(tokens, table, |init|);
      }
    }
  }

  lemma ReadyMonotone(tokens: seq<string>, small: set<string>, large: set<string>)
    requires Ready(tokens, small) && small <= large
    ensures Ready(tokens, large)
  {
  }

  lemma SoundExtends(raws: seq<Raw>, table: Table, r: Raw)
    requires Sound(raws, table) && r in raws && r.name !in table && Resolve(r.tokens, table).Some?
    ensures Sound(raws, table[r.name := Resolve(r.tokens, table).value])
  {
    hide Classify, Usable, Ready, Expand;
    var v := Resolve(r.tokens, table).value;
    var more := table[r.name := v];
    forall s | s in more && s !in BASE
      ensures exists q :: q in raws && q.name == s && Resolve(q.tokens, more) == Some(more[s])
    {
      if s == r.name {
        ExpandMonotone(r.tokens, table, more);
      } else {
        var q :| q in raws && q.name == s && Resolve(q.tokens, table) == Some(table[s]);
        ExpandMonotone(q.tokens, table, more);
      }
    }
    forall t | Closed(raws, t)
      ensures Agrees(more, t)
    {
      ExpandMonotone(r.tokens, table, t);
    }
    forall k | ClosedNames(raws, k)
      ensures more.Keys <= k
    {
      ExpandReady(r.tokens, table);
      ReadyMonotone(r.tokens, table.Keys, k);
    }
  }

  // ---------------------------------------------------------------------
  // The result is a least fixpoint, whatever the order of the definitions
  // ---------------------------------------------------------------------

  ghost predicate DistinctNames(raws: seq<Raw>) {
    forall q, r :: q in raws && r in raws && q.name == r.name ==> q == r
  }

  /** What `ResolveAll` promises. */
  ghost predicate Resolved(raws: seq<Raw>, table: Table) {
    Sound(raws, table) && forall r :: r in raws ==> Stuck(r, table)
  }

  /** The names that resolve are the least set closed under the definitions, even
      when names are defined more than once. */
  lemma LeastNames(raws: seq<Raw>, table: Table)
    requires Resolved(raws, table)
    ensures ClosedNames(raws, table.Keys)
    ensures forall k :: ClosedNames(raws, k) ==> table.Keys <= k
  {
    hide Classify, Usable, Ready, Expand, Resolve;
    forall r | r in raws && Ready(r.tokens, table.Keys)
      ensures r.name in table.Keys
    {
      ReadyNonEmpty(r.tokens, table.Keys);
      ExpandReady(r.tokens, table);
      assert Stuck(r, table);
    }
  }

  lemma ReadyNonEmpty(tokens: seq<string>, known: set<string>)
    requires Ready(tokens, known)
    ensures tokens != []
  {
  }

  /** With distinct names, the table itself is the least closed one. */
  lemma LeastTable(raws: seq<Raw>, table: Table)
    requires Resolved(raws, table) && DistinctNames(raws)
    ensures Closed(raws, table)
    ensures forall t :: Closed(raws, t) ==> Agrees(table, t)
  {
    hide Expand, Resolve;
    forall r | r in raws && r.name !in BASE && Resolve(r.tokens, table).Some?
      ensures r.name in table && table[r.name] == Resolve(r.tokens, table).value
    {
      assert Stuck(r, table);
      var q :| q in raws && q.name == r.name && Resolve(q.tokens, table) == Some(table[r.name]);
      assert q == r;
    }
  }

  /** Reordering the definitions changes neither which names resolve nor, as long
      as names are distinct, what they resolve to. */
  lemma OrderIrrelevant(raws: seq<Raw>, shuffled: seq<Raw>, table: Table, other: Table)
    requires multiset(raws) == multiset(shuffled)
    requires Resolved(raws, table) && Resolved(shuffled, other)
    ensures table.Keys == other.Keys
    ensures DistinctNames(raws) ==> table == other
  {
    hide Classify, Usable, Ready, Expand, Resolve, Sound;
    forall r
      ensures r in raws <==> r in shuffled
    {
      assert r in multiset(raws) <==> r in multiset(shuffled);
    }
    LeastNames(raws, table);
    LeastNames(shuffled, other);
    assert ClosedNames(raws, other.Keys) && ClosedNames(shuffled, table.Keys);
    if DistinctNames(raws) {
      LeastTable(raws, table);
      LeastTable(shuffled, other);
      assert Closed(raws, other) && Closed(shuffled, table);
    }
  }

  // ---------------------------------------------------------------------
  // Why a name stays unresolved
  // ---------------------------------------------------------------------

  /** No table resolves the definition. */
  predicate Malformed(raw: Raw) {
    raw.tokens == [] || exists i :: 0 <= i < |raw.tokens| && Classify(raw.tokens[i]).Unexpected?
  }

  ghost predicate Refers(raw: Raw, symbol: string) {
    exists i :: 0 <= i < |raw.tokens| && Classify(raw.tokens[i]) == Ref(symbol)
  }

  ghost predicate Unknown(raws: seq<Raw>, symbol: string) {
    symbol !in BASE && symbol !in NamesOf(raws)
  }

  /** A chain of definitions, each referring to the next. */
  ghost predicate Chained(raws: seq<Raw>, path: seq<Raw>) {
    && path != []
    && (forall i :: 0 <= i < |path| ==> path[i] in raws && path[i].name !in BASE)
    && (forall i :: 0 <= i < |path| - 1 ==> Refers(path[i], path[i + 1].name))
  }

  /** Where a chain ends: at a bad token, an unknown symbol, or back on itself. */
  ghost predicate DeadEnd(raws: seq<Raw>, path: seq<Raw>)
    requires path != []
  {
    var last := path[|path| - 1];
    || Malformed(last)
    || (exists s :: Refers(last, s) && Unknown(raws, s))
    || (exists i :: 0 <= i < |path| && Refers(last, path[i].name))
  }

  /** What keeps one definition from resolving against the final table. */
  lemma WhyStuck(raws: seq<Raw>, table: Table, r: Raw) returns (symbol: string)
    requires Resolved(raws, table) && r in raws && r.name !in table && !Malformed(r)
    ensures Refers(r, symbol) && symbol !in table
  {
    assert Stuck(r, table);
    ExpandReady(r.tokens, table);
    var i :| 0 <= i < |r.tokens| && !Usable(r.tokens[i], table.Keys);
    symbol := Classify(r.tokens[i]).symbol;
  }

  ghost function Unresolved(raws: seq<Raw>, table: Table): set<string> {
    set r | r in raws && r.name !in table :: r.name
  }

  ghost function PathNames(path: seq<Raw>): set<string> {
    set i | 0 <= i < |path| :: path[i].name
  }

  lemma PathNamesAppend(path: seq<Raw>, next: Raw)
    ensures PathNames(path + [next]) == PathNames(path) + {next.name}
  {
    var longer := path + [next];
    assert longer[|path|] == next;
    assert forall i :: 0 <= i < |path| ==> longer[i] == path[i];
    forall s | s in PathNames(path)
      ensures s in PathNames(longer)
    {
      var i :| 0 <= i < |path| && path[i].name == s;
      assert longer[i].name == s;
    }
  }

  /** From an unresolved definition, unresolved references lead to a dead end. */
  lemma {:induction false} FollowToDeadEnd(raws: seq<Raw>, table: Table, path: seq<Raw>) returns (dead: seq<Raw>)
    requires Resolved(raws, table) && Chained(raws, path)
    requires forall i :: 0 <= i < |path| ==> path[i].name !in table
    ensures Chained(raws, dead) && DeadEnd(raws, dead) && dead[0] == path[0]
    decreases Unresolved(raws, table) - PathNames(path)
  {
    hide Sound, Stuck, Classify, Malformed, Resolve;
    var last := path[|path| - 1];
    dead := path;
    if !Malformed(last) {
      var s := WhyStuck(raws, table, last);
      SoundExtendsBase(raws, table);
      if s in NamesOf(raws) && s !in PathNames(path) {
        var next :| next in raws && next.name == s;
        var longer := path + [next];
        PathNamesAppend(path, next);
        assert s in Unresolved(raws, table);
        forall i | 0 <= i < |longer| - 1
          ensures Refers(longer[i], longer[i + 1].name)
        {
          if i < |path| - 1 {
            assert longer[i] == path[i] && longer[i + 1] == path[i + 1];
          }
        }
        dead := FollowToDeadEnd(raws, table, longer);
      }
    }
  }

  lemma SoundExtendsBase(raws: seq<Raw>, table: Table)
    requires Sound(raws, table)
    ensures BASE.Keys <= table.Keys
  {
  }

  /** Removing the names of a dead-ended chain leaves a closed set of names. */
  lemma ChainCutIsClosed(raws: seq<Raw>, table: Table, path: seq<Raw>, from: nat)
    requires Resolved(raws, table) && DistinctNames(raws)
    requires Chained(raws, path) && from < |path|
    requires
      var last := path[|path| - 1];
      || Malformed(last)
      || (exists s :: Refers(last, s) && Unknown(raws, s))
      || Refers(last, path[from].name)
    ensures ClosedNames(raws, table.Keys - PathNames(path[from..]))
  {
    hide Sound, Stuck, Classify, Resolve;
    var cut := PathNames(path[from..]);
    var rest := table.Keys - cut;
    LeastNames(raws, table);
    SoundExtendsBase(raws, table);
    forall r | r in raws && Ready(r.tokens, rest)
      ensures r.name in rest
    {
      ReadyMonotone(r.tokens, rest, table.Keys);
      if r.name in cut {
        var j :| 0 <= j < |path[from..]| && path[from..][j].name == r.name;
        assert path[from..][j] == path[from + j] == r;
        var needed := NeededByChain(raws, path, from, from + j);
        UnknownNotResolved(raws, table, needed);
        NotReady(r, needed, rest);
      }
    }
  }

  /** A chain member is malformed or refers to a symbol that is unknown or in the chain. */
  lemma NeededByChain(raws: seq<Raw>, path: seq<Raw>, from: nat, j: nat) returns (needed: string)
    requires Chained(raws, path) && from <= j < |path|
    requires
      var last := path[|path| - 1];
      || Malformed(last)
      || (exists s :: Refers(last, s) && Unknown(raws, s))
      || Refers(last, path[from].name)
    ensures Malformed(path[j]) ||
      (Refers(path[j], needed) && (Unknown(raws, needed) || needed in PathNames(path[from..])))
  {
    hide Malformed, Refers, Unknown;
    needed := "";
    if j < |path| - 1 {
      needed := path[j + 1].name;
      assert path[from..][j + 1 - from] == path[j + 1];
    } else if !Malformed(path[j]) {
      if s :| Refers(path[j], s) && Unknown(raws, s) {
        needed := s;
      } else {
        needed := path[from].name;
        assert path[from..][0] == path[from];
      }
    }
  }

  lemma UnknownNotResolved(raws: seq<Raw>, table: Table, symbol: string)
    requires Sound(raws, table) && Unknown(raws, symbol)
    ensures symbol !in table
  {
  }

  lemma NotReady(r: Raw, needed: string, known: set<string>)
    requires Malformed(r) || (Refers(r, needed) && needed !in known)
    ensures !Ready(r.tokens, known)
  {
  }

  /** With distinct names, a definition stays unresolved exactly when some chain of
      references from it runs into a bad token, an unknown symbol, or a cycle. */
  lemma UnresolvedExactly(raws: seq<Raw>, table: Table, r: Raw)
    requires Resolved(raws, table) && DistinctNames(raws)
    requires r in raws && r.name !in BASE
    ensures r.name !in table <==> exists path :: Chained(raws, path) && path[0] == r && DeadEnd(raws, path)
  {
    hide Sound, Stuck, Malformed, Refers, Unknown;
    if r.name !in table {
      var dead := FollowToDeadEnd(raws, table, [r]);
    }
    if path: seq<Raw> :| Chained(raws, path) && path[0] == r && DeadEnd(raws, path) {
      var last := path[|path| - 1];
      var from := 0;
      if i: nat :| i < |path| && Refers(last, path[i].name) {
        from := i;
      }
      ChainUnresolved(raws, table, path, from);
    }
  }

  lemma {:induction false} ChainUnresolved(raws: seq<Raw>, table: Table, path: seq<Raw>, from: nat)
    requires Resolved(raws, table) && DistinctNames(raws)
    requires Chained(raws, path) && from < |path|
    requires
      var last := path[|path| - 1];
      || Malformed(last)
      || (exists s :: Refers(last, s) && Unknown(raws, s))
      || Refers(last, path[from].name)
    ensures path[0].name !in table
    decreases from
  {
    hide Sound, Stuck, Malformed, Refers, Unknown;
    LeastNames(raws, table);
    ChainCutIsClosed(raws, table, path, from);
    assert path[from..][0] == path[from];
    assert path[from].name !in table;
    if from > 0 {
      UnresolvedSpreads(raws, table, path, from);
    }
  }

  /** A definition that refers to an unresolved one is unresolved. */
  lemma {:induction false} UnresolvedSpreads(raws: seq<Raw>, table: Table, path: seq<Raw>, i: nat)
    requires Resolved(raws, table) && DistinctNames(raws)
    requires Chained(raws, path) && i < |path| && path[i].name !in table
    ensures path[0].name !in table
    decreases i
  {
    hide Malformed, Classify, Resolve;
    if i > 0 {
      var r := path[i - 1];
      assert Refers(r, path[i].name);
      NotReady(r, path[i].name, table.Keys);
      if r.name in table {
        var q :| q in raws && q.name == r.name && Resolve(q.tokens, table) == Some(table[r.name]);
        assert q == r;
        ExpandReady(r.tokens, table);
      }
      UnresolvedSpreads(raws, table, path, i - 1);
    }
  }

  // ---------------------------------------------------------------------
  // The parsed objects
  // ---------------------------------------------------------------------

  /** One object per numeric OID; `unit` and `description` ride along with the name. */
  datatype Object = Object(oid: string, name: string)

  ghost predicate LastWith(raws: seq<Raw>, table: Table, n: nat, i: nat, oid: string)
    requires n <= |raws|
  {
    && i < n && raws[i].name in table && DottedText(table[raws[i].name]) == oid
    && forall j :: i < j < n && raws[j].name in table ==> DottedText(table[raws[j].name]) != oid
  }

  ghost function CountResolved(raws: seq<Raw>, table: Table): nat {
    if raws == [] then 0
    else CountResolved(raws[..|raws| - 1], table) + (if raws[|raws| - 1].name in table then 1 else 0)
  }

  /** The count is that of the definitions, repeated names included. */
  lemma {:induction false} CountExactly(raws: seq<Raw>, table: Table)
    ensures CountResolved(raws, table) == |set i: nat | i < |raws| && raws[i].name in table|
  {
    if raws == [] {
    } else {
      var n := |raws| - 1;
      CountExactly(raws[..n], table);
      var before := set i: nat | i < n && raws[..n][i].name in table;
      var all := set i: nat | i < |raws| && raws[i].name in table;
      if raws[n].name in table {
        assert all == before + {n};
      } else {
        assert all == before;
      }
    }
  }

  function DottedText(oid: Oid): string {
    if oid == [] then "" else if |oid| == 1 then Digits(oid[0]) else Digits(oid[0]) + "." + DottedText(oid[1..])
  }

  /** The objects carry exactly the resolved OIDs, each named by the last of its definitions. */
  ghost predicate Collected(raws: seq<Raw>, table: Table, n: nat, objects: map<string, Object>)
    requires n <= |raws|
  {
    && (forall o :: o in objects ==>
      objects[o].oid == o && exists i: nat :: LastWith(raws, table, n, i, o) && objects[o].name == raws[i].name)
    && (forall i :: 0 <= i < n && raws[i].name in table ==> DottedText(table[raws[i].name]) in objects)
  }

  /** Objects and count of one parse, against the table the definitions resolve to. */
  ghost predicate Parsed(raws: seq<Raw>, table: Table, objects: map<string, Object>, resolved: nat) {
    Resolved(raws, table) && Collected(raws, table, |raws|, objects) && resolved == CountResolved(raws, table)
  }

  method ParseMib(raws: seq<Raw>) returns (objects: map<string, Object>, resolved: nat)
    ensures exists table :: Parsed(raws, table, objects, resolved)
  {
    hide Sound, Stuck, DottedText;
    var t := ResolveAll(raws);
    ghost var table := t;
    objects, resolved := map[], 0;
    for n := 0 to |raws|
      invariant Collected(raws, table, n, objects)
      invariant resolved == CountResolved(raws[..n], table)
    {
      assert raws[..n + 1][..n] == raws[..n];
      CollectStep(raws, table, n, objects);
      var r := raws[n];
      if r.name in t {
        resolved := resolved + 1;
        var oid := DottedText(t[r.name]);
        objects := objects[oid := Object(oid, r.name)];
      }
    }
    assert raws[..|raws|] == raws;
    assert Parsed(raws, table, objects, resolved);
  }

  lemma CollectStep(raws: seq<Raw>, table: Table, n: nat, objects: map<string, Object>)
    requires n < |raws| && Collected(raws, table, n, objects)
    ensures var r := raws[n];
      Collected(raws, table, n + 1, if r.name in table
        then objects[DottedText(table[r.name]) := Object(DottedText(table[r.name]), r.name)] else objects)
  {
    hide DottedText;
    var r := raws[n];
    var oid := if r.name in table then DottedText(table[r.name]) else "";
    var more := if r.name in table then objects[oid := Object(oid, r.name)] else objects;
    forall o | o in more
      ensures more[o].oid == o && exists i: nat :: LastWith(raws, table, n + 1, i, o) && more[o].name == raws[i].name
    {
      if r.name in table && o == oid {
        assert LastWith(raws, table, n + 1, n, o);
      } else {
        var i: nat :| LastWith(raws, table, n, i, o) && objects[o].name == raws[i].name;
        assert LastWith(raws, table, n + 1, i, o);
      }
    }
  }

  /** The definition resolves to this OID. */
  ghost predicate Defines(r: Raw, table: Table, oid: string) {
    r.name in table && DottedText(table[r.name]) == oid
  }

  ghost predicate DefinesLast(raws: seq<Raw>, table: Table, i: nat, oid: string) {
    i < |raws| && Defines(raws[i], table, oid) && forall j :: i < j < |raws| ==> !Defines(raws[j], table, oid)
  }

  /** There is one object for every OID that some definition resolves to, with the name of
      the last such definition; counted are the definitions that resolve. */
  lemma ParsedExactly(raws: seq<Raw>, table: Table, objects: map<string, Object>, resolved: nat)
    ensures Parsed(raws, table, objects, resolved) <==>
      && Resolved(raws, table) && resolved == |set i: nat | i < |raws| && raws[i].name in table|
      && (forall o :: o in objects <==> exists i :: 0 <= i < |raws| && Defines(raws[i], table, o))
      && (forall o, i: nat :: o in objects && DefinesLast(raws, table, i, o) ==> objects[o] == Object(o, raws[i].name))
  {
    hide Resolved, DottedText, CountResolved;
    CountExactly(raws, table);
    forall o, i: nat
      ensures LastWith(raws, table, |raws|, i, o) <==> DefinesLast(raws, table, i, o)
    {
    }
    forall o, i | 0 <= i < |raws| && Defines(raws[i], table, o)
      ensures exists k: nat :: LastWith(raws, table, |raws|, k, o)
    {
      var k := LastDefinition(raws, table, i, o);
    }
  }

  lemma {:induction false} LastDefinition(raws: seq<Raw>, table: Table, i: nat, o: string) returns (k: nat)
    requires i < |raws| && Defines(raws[i], table, o)
    ensures LastWith(raws, table, |raws|, k, o)
    decreases |raws| - i
  {
    if j :| i < j < |raws| && Defines(raws[j], table, o) {
      k := LastDefinition(raws, table, j, o);
    } else {
      k := i;
    }
  }
}
