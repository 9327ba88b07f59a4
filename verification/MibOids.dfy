/** What a definition resolves to: the parts its tokens stand for, in their order. */
module MibOids {
  import opened Decimal
  import opened Mib
  import opened Shared

  /** `text` is a decimal numeral for `n`. */
  ghost predicate Spells(text: string, n: nat) {
    text != "" && AllDigits(text) && Number(text) == n
  }

  predicate IsName(s: string) {
    s != "" && IsLetter(s[0]) && AllNameChars(s)
  }

  ghost predicate IsLabel(tk: string, word: string, n: nat) {
    && word != "" && AllNameChars(word)
    && exists digits :: Spells(digits, n) && tk == word + "(" + digits + ")"
  }

  /** As in `iso(1)`. */
  ghost predicate Labels(tk: string, n: nat) {
    exists word :: IsLabel(tk, word, n)
  }

  /** A numeral and a labelled numeral stand for one arc, a name for its symbol's OID. */
  ghost predicate StandsFor(tk: string, table: Table, part: Oid) {
    || (exists n: nat :: Spells(tk, n) && part == [n])
    || (exists n: nat :: Labels(tk, n) && part == [n])
    || (IsName(tk) && tk in table && part == table[tk])
  }

  function Flat(parts: seq<Oid>): Oid {
    if parts == [] then [] else parts[0] + Flat(parts[1..])
  }

  // ---------------------------------------------------------------------
  // Tokens
  // ---------------------------------------------------------------------

  const UPPER := "ABCDEFGHIJKLMNOPQRSTUVWXYZ"
  const LOWER := "abcdefghijklmnopqrstuvwxyz"
  const OTHERS := "0123456789_-"

  /** The characters of names. */
  lemma NameCharacters(c: char)
    ensures IsLetter(c) <==> c in UPPER || c in LOWER
    ensures IsNameChar(c) <==> c in UPPER || c in LOWER || c in OTHERS
  {
    UpperLetters(c);
    LowerLetters(c);
    OtherCharacters(c);
  }

  lemma UpperLetters(c: char)
    ensures c in UPPER <==> 'A' <= c <= 'Z'
  {
    if 'A' <= c <= 'Z' {
      assert UPPER[c as int - 'A' as int] == c;
    }
  }

  lemma LowerLetters(c: char)
    ensures c in LOWER <==> 'a' <= c <= 'z'
  {
    if 'a' <= c <= 'z' {
      assert LOWER[c as int - 'a' as int] == c;
    }
  }

  lemma OtherCharacters(c: char)
    ensures c in OTHERS <==> '0' <= c <= '9' || c == '_' || c == '-'
  {
    if '0' <= c <= '9' {
      assert OTHERS[c as int - '0' as int] == c;
    }
    assert OTHERS[10] == '_' && OTHERS[11] == '-';
  }

  lemma {:induction false} ParenAfter(word: string, rest: string)
    requires AllNameChars(word)
    ensures Paren(word + "(" + rest) == |word|
  {
    var s := word + "(" + rest;
    if word != "" {
      assert IsNameChar(word[0]) && s[0] == word[0];
      assert s[1..] == word[1..] + "(" + rest;
      ParenAfter(word[1..], rest);
    }
  }

  lemma {:induction false} ParenFound(s: string)
    ensures Paren(s) < |s| ==> s[Paren(s)] == '('
  {
    if s != "" && s[0] != '(' {
      ParenFound(s[1..]);
    }
  }

  lemma LabelledExactly(tk: string, n: nat)
    ensures Labelled(tk) == Some(n) <==> Labels(tk, n)
  {
    hide Number;
    var p := Paren(tk);
    if Labelled(tk) == Some(n) {
      ParenFound(tk);
      var word, digits := tk[..p], tk[p + 1..|tk| - 1];
      assert tk == word + "(" + digits + ")";
      assert Spells(digits, n);
      assert IsLabel(tk, word, n);
    }
    if word :| IsLabel(tk, word, n) {
      var digits :| Spells(digits, n) && tk == word + "(" + digits + ")";
      assert tk == word + "(" + (digits + ")");
      ParenAfter(word, digits + ")");
      assert tk[..p] == word && tk[p + 1..|tk| - 1] == digits;
    }
  }

  /** A token stands for at most one part, the one it is taken for. */
  lemma StandsExactly(tk: string, table: Table, part: Oid)
    ensures StandsFor(tk, table, part) <==>
      match Classify(tk)
      case Arc(n) => part == [n]
      case Ref(s) => s in table && part == table[s]
      case Unexpected => false
  {
    hide Number, Labelled, Labels;
    assert forall n: nat :: Spells(tk, n) <==> tk != "" && AllDigits(tk) && n == Number(tk);
    forall n: nat
      ensures Labelled(tk) == Some(n) <==> Labels(tk, n)
    {
      LabelledExactly(tk, n);
    }
    if tk != "" && AllDigits(tk) {
      NoLabelInNumeral(tk);
    } else if Labelled(tk).Some? {
      NoNameIsLabel(tk, Labelled(tk).value);
    }
  }

  lemma NoLabelInNumeral(tk: string)
    requires tk != "" && AllDigits(tk)
    ensures !IsName(tk) && forall n: nat :: !Labels(tk, n)
  {
    assert '(' !in tk;
    forall n: nat
      ensures Labels(tk, n) ==> '(' in tk
    {
      if Labels(tk, n) {
        LabelHasParen(tk, n);
      }
    }
  }

  lemma LabelHasParen(tk: string, n: nat)
    requires Labels(tk, n)
    ensures '(' in tk
  {
    var word :| IsLabel(tk, word, n);
    assert tk[|word|] == '(';
  }

  lemma NoNameIsLabel(tk: string, n: nat)
    requires Labels(tk, n)
    ensures !IsName(tk)
  {
    LabelHasParen(tk, n);
    assert !IsNameChar('(');
  }

  // ---------------------------------------------------------------------
  // Definitions
  // ---------------------------------------------------------------------

  ghost predicate Composed(tokens: seq<string>, table: Table, parts: seq<Oid>) {
    |parts| == |tokens| && forall i :: 0 <= i < |tokens| ==> StandsFor(tokens[i], table, parts[i])
  }

  lemma {:induction false} FlatAppend(parts: seq<Oid>, last: Oid)
    ensures Flat(parts + [last]) == Flat(parts) + last
  {
    if parts == [] {
      assert [last][1..] == [] && parts + [last] == [last];
    } else {
      assert (parts + [last])[1..] == parts[1..] + [last];
      FlatAppend(parts[1..], last);
    }
  }

  lemma {:induction false} PartsOf(tokens: seq<string>, table: Table) returns (parts: seq<Oid>)
    requires Expand(tokens, table).Some?
    ensures Composed(tokens, table, parts) && Expand(tokens, table) == Some(Flat(parts))
  {
    hide StandsFor, Classify;
    parts := [];
    if tokens != [] {
      var init, oid := tokens[..|tokens| - 1], Expand(tokens, table).value;
      var before := Expand(init, table).value;
      parts := PartsOf(init, table);
      var part := oid[|before|..];
      StandsExactly(tokens[|tokens| - 1], table, part);
      FlatAppend(parts, part);
      parts := parts + [part];
    }
  }

  lemma {:induction false} ExpandParts(tokens: seq<string>, table: Table, parts: seq<Oid>)
    requires Composed(tokens, table, parts)
    ensures Expand(tokens, table) == Some(Flat(parts))
  {
    hide StandsFor, Classify;
    if tokens != [] {
      var before, part := parts[..|parts| - 1], parts[|parts| - 1];
      assert parts == before + [part];
      FlatAppend(before, part);
      ExpandParts(tokens[..|tokens| - 1], table, before);
      StandsExactly(tokens[|tokens| - 1], table, part);
    }
  }

  /** A definition resolves to an OID exactly if its tokens all stand for something and
      the parts, one after another, make up the OID. */
  lemma ResolvedExactly(tokens: seq<string>, table: Table, oid: Oid)
    ensures Resolve(tokens, table) == Some(oid) <==>
            oid != [] && exists parts :: Composed(tokens, table, parts) && oid == Flat(parts)
  {
    hide Expand, Composed, Flat;
    if Expand(tokens, table) == Some(oid) {
      var parts := PartsOf(tokens, table);
    }
    if parts :| Composed(tokens, table, parts) && oid == Flat(parts) {
      ExpandParts(tokens, table, parts);
    }
  }

  function Numerals(arcs: seq<nat>): seq<string> {
    seq(|arcs|, i requires 0 <= i < |arcs| => Digits(arcs[i]))
  }

  function Singles(arcs: seq<nat>): seq<Oid> {
    seq(|arcs|, i requires 0 <= i < |arcs| => [arcs[i]])
  }

  lemma {:induction false} FlatSingles(arcs: seq<nat>)
    ensures Flat(Singles(arcs)) == arcs
  {
    if arcs != [] {
      assert Singles(arcs)[1..] == Singles(arcs[1..]);
      FlatSingles(arcs[1..]);
      assert arcs == [arcs[0]] + arcs[1..];
    }
  }

  /** `{ parent a b ... }` is the parent's OID followed by the arcs. */
  lemma ChildOid(parent: string, arcs: seq<nat>, table: Table)
    requires IsName(parent) && parent in table && arcs != []
    ensures Resolve([parent] + Numerals(arcs), table) == Some(table[parent] + arcs)
  {
    var tokens, parts := [parent] + Numerals(arcs), [table[parent]] + Singles(arcs);
    forall i | 0 <= i < |tokens|
      ensures StandsFor(tokens[i], table, parts[i])
    {
      if i > 0 {
        NumberOfDigits(arcs[i - 1]);
        assert Spells(tokens[i], arcs[i - 1]);
      }
    }
    assert Composed(tokens, table, parts);
    assert parts[1..] == Singles(arcs);
    FlatSingles(arcs);
    ResolvedExactly(tokens, table, table[parent] + arcs);
  }

  /** The definition `name ::= { parent n }` resolves to the root's OID. */
  ghost predicate Under(name: string, parent: string, n: nat) {
    name in BASE && parent in BASE && Resolve([parent, Digits(n)], BASE) == Some(BASE[name])
  }

  lemma RootIs(name: string, parent: string, n: nat)
    requires IsName(parent) && name in BASE && parent in BASE && BASE[name] == BASE[parent] + [n]
    ensures Under(name, parent, n)
  {
    ChildOid(parent, [n], BASE);
    assert [parent] + Numerals([n]) == [parent, Digits(n)];
  }

  /** The roots are those of the SMI (section 4 of RFC 2578), `host` being the one of the
      host resources. */
  lemma RootsAreSmi()
    ensures BASE["iso"] == [1] && Under("org", "iso", 3) && Under("dod", "org", 6) && Under("internet", "dod", 1)
    ensures Under("directory", "internet", 1) && Under("mgmt", "internet", 2) && Under("experimental", "internet", 3)
    ensures Under("private", "internet", 4)
  {
    hide Under, Resolve, Digits;
    RootIs("org", "iso", 3);
    RootIs("dod", "org", 6);
    RootIs("internet", "dod", 1);
    RootIs("directory", "internet", 1);
    RootIs("mgmt", "internet", 2);
    RootIs("experimental", "internet", 3);
    RootIs("private", "internet", 4);
  }

  lemma RootsBelow()
    ensures Under("security", "internet", 5) && Under("snmpV2", "internet", 6)
    ensures Under("mib-2", "mgmt", 1) && Under("transmission", "mib-2", 10) && Under("enterprises", "private", 1)
    ensures Under("snmpModules", "snmpV2", 3) && Under("host", "mib-2", 25)
  {
    hide Under, Resolve, Digits;
    RootIs("security", "internet", 5);
    RootIs("snmpV2", "internet", 6);
    RootIs("mib-2", "mgmt", 1);
    RootIs("transmission", "mib-2", 10);
    RootIs("enterprises", "private", 1);
    RootIs("snmpModules", "snmpV2", 3);
    RootIs("host", "mib-2", 25);
  }
}
