/** The token parser that collects the keys of every `enum class` in a header, whatever
    classes it is nested in. */
module EnumPrint {
  import opened Options

  type Token = string

  // ---------- headers as trees, and their tokens

  datatype Entry = Entry(key: Token, value: Option<Token>)

  /** A qualified name is the list of its parts; `bases` is what stands before the body. A
      brace block is a function body, a struct, or a namespace that is not a class; `Pair` is a
      token the parser looks behind, with what it finds there. */
  datatype Item =
    | EnumClass(name: Token, bases: seq<Token>, entries: seq<Entry>, trailing: bool)
    | Class(qname: seq<Token>, bases: seq<Token>, members: seq<Item>)
    | Forward(qname: seq<Token>)
    | ToString(qname: seq<Token>, arg: Token)
    | Block(members: seq<Item>)
    | Pair(first: Token, second: Token)
    | Other(tok: Token)

  function PrintEntries(entries: seq<Entry>, trailing: bool): seq<Token> {
    if entries == [] then []
    else
      [entries[0].key]
      + (if entries[0].value.Some? then ["=", entries[0].value.value] else [])
      + (if |entries| > 1 || trailing then [","] else [])
      + PrintEntries(entries[1..], trailing)
  }

  function PrintQname(parts: seq<Token>): seq<Token> {
    if |parts| <= 1 then parts else [parts[0], "::"] + PrintQname(parts[1..])
  }

  function PrintItem(i: Item): seq<Token>
    decreases i
  {
    match i
    case EnumClass(name, bases, entries, trailing) =>
      ["enum", "class", name] + bases + ["{"] + PrintEntries(entries, trailing) + ["}", ";"]
    case Class(qname, bases, members) =>
      ["class"] + PrintQname(qname) + bases + ["{"] + PrintItems(members) + ["}", ";"]
    case Forward(qname) => ["class"] + PrintQname(qname) + [";"]
    case ToString(qname, arg) => ["string", "to_string", "("] + PrintQname(qname) + [arg, ")"]
    case Block(members) => ["{"] + PrintItems(members) + ["}"]
    case Pair(first, second) => [first, second]
    case Other(tok) => [tok]
  }

  function PrintItems(items: seq<Item>): seq<Token>
    decreases items
  {
    if items == [] then [] else PrintItem(items[0]) + PrintItems(items[1..])
  }

  /** A token the parser skips wherever it stands. */
  predicate Loose(tok: Token) {
    tok !in {"enum", "class", "{", "}", "string"}
  }

  /** Tokens keep to their roles: names are not punctuation, bases open no body, loose tokens
      start nothing the parser knows. */
  predicate GoodItem(i: Item)
    decreases i
  {
    match i
    case EnumClass(_, bases, entries, _) =>
      "{" !in bases && forall j :: 0 <= j < |entries| ==> entries[j].key != "}"
    case Class(qname, bases, members) =>
      && qname != [] && "{" !in bases && ";" !in bases && (bases != [] ==> bases[0] != "::")
      && GoodItems(members)
    case Forward(qname) => qname != []
    case ToString(qname, arg) =>
      qname != [] && (forall j :: 0 <= j < |qname| ==> Loose(qname[j])) && Loose(arg) && arg != "::"
    case Block(members) => GoodItems(members)
    case Pair(first, second) =>
      Loose(second) && ((first == "string" && second != "to_string") || first == "enum")
    case Other(tok) => Loose(tok)
  }

  /** No `enum class` lies below a brace block: each is in `named` namespaces only. */
  predicate EnumsNamed(named: bool, items: seq<Item>)
    decreases items
  {
    items == [] || (ItemNamed(named, items[0]) && EnumsNamed(named, items[1..]))
  }

  predicate ItemNamed(named: bool, i: Item)
    decreases i
  {
    match i
    case EnumClass(_, _, _, _) => named
    case Class(_, _, members) => EnumsNamed(named, members)
    case Block(members) => EnumsNamed(false, members)
    case _ => true
  }

  predicate GoodItems(items: seq<Item>)
    decreases items
  {
    items == [] || (GoodItem(items[0]) && GoodItems(items[1..]))
  }

  // ---------- what should be collected

  function Join(parts: seq<Token>): Token {
    if parts == [] then "" else if |parts| == 1 then parts[0] else parts[0] + "::" + Join(parts[1..])
  }

  /** The tokens as one text. */
  function Concat(toks: seq<Token>): Token {
    if toks == [] then "" else toks[0] + Concat(toks[1..])
  }

  /** A joined name is the text of its tokens. */
  lemma {:induction false} JoinedText(parts: seq<Token>)
    ensures Join(parts) == Concat(PrintQname(parts))
    decreases |parts|
  {
    if |parts| <= 1 {
      assert parts != [] ==> parts[1..] == [];
    } else {
      JoinedText(parts[1..]);
      var tail := PrintQname(parts[1..]);
      assert PrintQname(parts) == [parts[0]] + (["::"] + tail);
      assert PrintQname(parts)[1..] == ["::"] + tail && (["::"] + tail)[1..] == tail;
    }
  }

  function Keys(entries: seq<Entry>): (r: seq<Token>)
    ensures |r| == |entries| && forall i :: 0 <= i < |r| ==> r[i] == entries[i].key
  {
    seq(|entries|, i requires 0 <= i < |entries| => entries[i].key)
  }

  type Enums = map<Token, seq<Token>>

  function CollectOne(e: Enums, ns: seq<Token>, i: Item): Enums
    decreases i
  {
    match i
    case EnumClass(name, _, entries, _) => e[Join(ns + [name]) := Keys(entries)]
    case Class(qname, _, members) => Collect(e, ns + [Join(qname)], members)
    case _ => e
  }

  function Collect(e: Enums, ns: seq<Token>, items: seq<Item>): Enums
    decreases items
  {
    if items == [] then e else Collect(CollectOne(e, ns, items[0]), ns, items[1..])
  }

  /** The enums of a tree by qualified name, in order. */
  function Declared(ns: seq<Token>, items: seq<Item>): seq<(Token, seq<Token>)>
    decreases items, 1
  {
    if items == [] then []
    else
      (match items[0]
       case EnumClass(name, _, entries, _) => [(Join(ns + [name]), Keys(entries))]
       case Class(qname, _, members) => Declared(ns + [Join(qname)], members)
       case _ => [])
      + Declared(ns, items[1..])
  }

  /** `path` leads, from member to member through the classes `names`, to an `enum class`. */
  predicate Leads(items: seq<Item>, path: seq<nat>, names: seq<Token>, e: Item)
    decreases |path|
  {
    && path != [] && path[0] < |items|
    && var i := items[path[0]];
       if |path| == 1 then i == e && e.EnumClass? && names == []
       else i.Class? && names != [] && names[0] == Join(i.qname) && Leads(i.members, path[1..], names[1..], e)
  }

  /** The enums of a tree are those that some path through its classes leads to, under the names
      of these classes. */
  lemma DeclaredAre(ns: seq<Token>, items: seq<Item>, name: Token, keys: seq<Token>)
    ensures (name, keys) in Declared(ns, items)
            <==> exists path, names, e ::
                   && Leads(items, path, names, e) && e.EnumClass?
                   && name == Join(ns + names + [e.name]) && keys == Keys(e.entries)
  {
    hide Declared, Leads, Join, Keys;
    if (name, keys) in Declared(ns, items) {
      var path, names, e := PathTo(ns, items, name, keys);
    }
    forall path, names, e | Leads(items, path, names, e) && e.EnumClass?
      ensures (Join(ns + names + [e.name]), Keys(e.entries)) in Declared(ns, items)
    {
      Reached(ns, items, path, names, e);
    }
  }

  lemma {:induction false} PathTo(ns: seq<Token>, items: seq<Item>, name: Token, keys: seq<Token>)
      returns (path: seq<nat>, names: seq<Token>, e: Item)
    requires (name, keys) in Declared(ns, items)
    ensures Leads(items, path, names, e) && e.EnumClass?
    ensures name == Join(ns + names + [e.name]) && keys == Keys(e.entries)
    decreases items
  {
    hide Join, Keys;
    if (name, keys) in Declared(ns, items[1..]) {
      path, names, e := PathTo(ns, items[1..], name, keys);
      path := [path[0] + 1] + path[1..];
    } else if items[0].Class? {
      path, names, e := PathTo(ns + [Join(items[0].qname)], items[0].members, name, keys);
      assert ns + [Join(items[0].qname)] + names == ns + ([Join(items[0].qname)] + names);
      path, names := [0] + path, [Join(items[0].qname)] + names;
    } else {
      path, names, e := [0], [], items[0];
      assert ns + [] == ns;
    }
  }

  lemma {:induction false} Reached(ns: seq<Token>, items: seq<Item>, path: seq<nat>, names: seq<Token>, e: Item)
    requires Leads(items, path, names, e) && e.EnumClass?
    ensures (Join(ns + names + [e.name]), Keys(e.entries)) in Declared(ns, items)
    decreases items
  {
    hide Join, Keys;
    if path[0] > 0 {
      Reached(ns, items[1..], [path[0] - 1] + path[1..], names, e);
    } else if |path| > 1 {
      assert ns + [names[0]] + names[1..] == ns + names;
      Reached(ns + [names[0]], items[0].members, path[1..], names[1..], e);
    } else {
      assert ns + [] == ns;
    }
  }

  ghost predicate DistinctNames(d: seq<(Token, seq<Token>)>) {
    forall i, j :: 0 <= i < j < |d| ==> d[i].0 != d[j].0
  }

  function Update(e: Enums, d: seq<(Token, seq<Token>)>): Enums
    decreases |d|
  {
    if d == [] then e else Update(e[d[0].0 := d[0].1], d[1..])
  }

  lemma {:induction false} UpdateAppend(e: Enums, a: seq<(Token, seq<Token>)>, b: seq<(Token, seq<Token>)>)
    ensures Update(e, a + b) == Update(Update(e, a), b)
    decreases |a|
  {
    if a == [] {
      assert a + b == b;
    } else {
      UpdateAppend(e[a[0].0 := a[0].1], a[1..], b);
      assert (a + b)[1..] == a[1..] + b;
    }
  }

  lemma {:induction false} CollectIsUpdate(e: Enums, ns: seq<Token>, items: seq<Item>)
    ensures Collect(e, ns, items) == Update(e, Declared(ns, items))
    decreases items
  {
    if items != [] {
      var first := match items[0]
        case EnumClass(name, _, entries, _) => [(Join(ns + [name]), Keys(entries))]
        case Class(qname, _, members) => Declared(ns + [Join(qname)], members)
        case _ => [];
      match items[0] {
        case Class(qname, _, members) => CollectIsUpdate(e, ns + [Join(qname)], members);
        case EnumClass(name, _, entries, _) =>
          assert first[1..] == [];
        case _ =>
      }
      assert CollectOne(e, ns, items[0]) == Update(e, first);
      CollectIsUpdate(CollectOne(e, ns, items[0]), ns, items[1..]);
      UpdateAppend(e, first, Declared(ns, items[1..]));
    }
  }

  lemma {:induction false} UpdateExact(e: Enums, d: seq<(Token, seq<Token>)>)
    requires DistinctNames(d)
    ensures forall i :: 0 <= i < |d| ==> d[i].0 in Update(e, d) && Update(e, d)[d[i].0] == d[i].1
    ensures forall k :: k in Update(e, d) ==> k in e || exists i :: 0 <= i < |d| && d[i].0 == k
    ensures forall k :: k in e && (forall i :: 0 <= i < |d| ==> d[i].0 != k) ==>
              k in Update(e, d) && Update(e, d)[k] == e[k]
    decreases |d|
  {
    if d != [] {
      var e' := e[d[0].0 := d[0].1];
      assert forall i :: 0 < i < |d| ==> d[i] == d[1..][i - 1];
      UpdateExact(e', d[1..]);
      assert forall i :: 0 <= i < |d[1..]| ==> d[1..][i].0 != d[0].0;
    }
  }

  lemma {:induction false} UnnamedCollects(e: Enums, ns: seq<Token>, items: seq<Item>)
    requires EnumsNamed(false, items)
    ensures Collect(e, ns, items) == e
    decreases items
  {
    if items != [] {
      if items[0].Class? { UnnamedCollects(e, ns + [Join(items[0].qname)], items[0].members); }
      UnnamedCollects(e, ns, items[1..]);
    }
  }

  /** The smallest tree with an `enum class` below a brace block, and its tokens. */
  lemma HiddenEnum()
    ensures var items := [Block([EnumClass("e", [], [Entry("a", None)], false)])];
            && GoodItems(items) && !EnumsNamed(true, items)
            && PrintItems(items) == ["{", "enum", "class", "e", "{", "a", "}", ";", "}"]
  {
    var e := EnumClass("e", [], [Entry("a", None)], false);
    var a := Entry("a", None);
    assert PrintEntries([a], false) == ["a"] by { assert [a][1..] == []; }
    assert PrintItem(e) == ["enum", "class", "e", "{", "a", "}", ";"];
    assert GoodItem(e) && !ItemNamed(false, e);
    OneItem(e);
    OneItem(Block([e]));
    assert PrintItem(Block([e])) == ["{"] + PrintItem(e) + ["}"];
    hide PrintItem, PrintItems, GoodItems, EnumsNamed;
  }

  lemma OneItem(i: Item)
    ensures PrintItems([i]) == PrintItem(i)
    ensures GoodItems([i]) <==> GoodItem(i)
    ensures forall named :: EnumsNamed(named, [i]) <==> ItemNamed(named, i)
  {
    hide PrintItem, GoodItem, ItemNamed;
    assert [i][0] == i && [i][1..] == [];
    assert PrintItem(i) + [] == PrintItem(i);
  }

  /** With distinct names the collection is exactly the map from every qualified name to its
      keys, in order. */
  lemma CollectedExactly(ns: seq<Token>, items: seq<Item>)
    requires DistinctNames(Declared(ns, items))
    ensures var e, d := Collect(map[], ns, items), Declared(ns, items);
            && (forall i :: 0 <= i < |d| ==> d[i].0 in e && e[d[i].0] == d[i].1)
            && forall k :: k in e ==> exists i :: 0 <= i < |d| && d[i].0 == k
  {
    CollectIsUpdate(map[], ns, items);
    UpdateExact(map[], Declared(ns, items));
  }
}
