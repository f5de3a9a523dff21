/** The recursive parser itself, consuming a token list from the front. Every method takes
    any tokens (`ok` is false where the script stops with an exception) and is followed, as
    ghost arguments, by the tree it may be reading. */
module EnumParser {
  import opened EnumPrint
  import opened Options

  class Reader {
    var toks: seq<Token>
    var enums: Enums

    constructor (toks: seq<Token>)
      ensures this.toks == toks && enums == map[]
    {
      this.toks, enums := toks, map[];
    }

    method Pop() returns (ok: bool, tok: Token)
      modifies `toks
      ensures ok <==> old(toks) != []
      ensures ok ==> tok == old(toks)[0] && toks == old(toks)[1..]
      ensures !ok ==> toks == []
    {
      if toks == [] {
        return false, "";
      }
      ok, tok, toks := true, toks[0], toks[1..];
    }

    /** A nested-name-specifier followed by an identifier. */
    method DoQname(ghost parts: seq<Token>, ghost rest: seq<Token>) returns (ok: bool, name: Token)
      modifies `toks
      ensures |toks| <= |old(toks)| && (ok ==> |toks| < |old(toks)|)
      ensures (parts != [] && rest != [] && rest[0] != "::" && old(toks) == PrintQname(parts) + rest) ==>
                ok && name == Join(parts) && toks == rest
    {
      hide PrintQname, Join;
      var res: seq<Token> := [];
      ghost var shaped := parts != [] && rest != [] && rest[0] != "::" && toks == PrintQname(parts) + rest;
      ghost var left := parts;
      while true
        invariant |toks| <= |old(toks)| && (res != [] ==> |toks| < |old(toks)|)
        invariant shaped ==> left != [] && toks == PrintQname(left) + rest && res + left == parts
        decreases |toks|
      {
        QnameStarts(left, rest);
        if shaped { QnameStep(res, left, parts); }
        var part;
        ok, part := Pop();
        if !ok {
          return false, "";
        }
        res := res + [part];
        if toks == [] {
          return false, "";
        }
        if toks[0] != "::" {
          return true, Join(res);
        }
        toks := toks[1..];
        left := if left == [] then [] else left[1..];
      }
    }

    /** The body of an enum: keys, optional values, commas, up to the closing brace and its
        semicolon. */
    method DoEnumBody(name: Token, ghost entries: seq<Entry>, ghost trailing: bool, ghost rest: seq<Token>)
        returns (ok: bool)
      modifies this
      ensures |toks| <= |old(toks)|
      ensures ((forall j :: 0 <= j < |entries| ==> entries[j].key != "}")
               && old(toks) == PrintEntries(entries, trailing) + ["}", ";"] + rest) ==>
                ok && toks == rest && enums == old(enums)[name := Keys(entries)]
    {
      hide Keys, ValueTokens, CommaTokens, PrintEntries;
      ghost var shaped := (forall j :: 0 <= j < |entries| ==> entries[j].key != "}")
                          && toks == PrintEntries(entries, trailing) + ["}", ";"] + rest;
      var keys: seq<Token> := [];
      ghost var k := 0;
      assert entries[0..] == entries;
      KeysStart(entries);
      while true
        invariant |toks| <= |old(toks)| && enums == old(enums)
        invariant shaped ==> k <= |entries| && keys == Keys(entries[..k])
                             && toks == PrintEntries(entries[k..], trailing) + ["}", ";"] + rest
        decreases |toks|
      {
        if shaped { EntryStarts(entries, k, trailing, rest); }
        if k < |entries| { KeysGrow(entries, k); }
        var key, tok;
        ok, key := Pop();
        if !ok {
          return;
        }
        if key == "}" {
          ok, tok := Pop();
          ok := ok && tok == ";";
          assert shaped ==> entries[..k] == entries;
          enums := enums[name := keys];
          return;
        }
        keys := keys + [key];
        ghost var value := if k < |entries| then entries[k].value else None;
        ghost var comma := k + 1 < |entries| || trailing;
        ghost var more := if k < |entries| then PrintEntries(entries[k + 1..], trailing) + ["}", ";"] + rest else [];
        ok := SkipValue(value, comma, more);
        if !ok {
          return;
        }
        k := k + 1;
      }
    }

    /** Behind a key: an optional value, then a comma unless the body ends. */
    method SkipValue(ghost value: Option<Token>, ghost comma: bool, ghost more: seq<Token>) returns (ok: bool)
      modifies `toks
      ensures |toks| <= |old(toks)|
      ensures (more != [] && (!comma ==> more[0] == "}")
               && old(toks) == ValueTokens(value) + CommaTokens(comma) + more) ==> ok && toks == more
    {
      if toks == [] { return false; }
      if toks[0] == "=" {
        if |toks| < 3 { return false; }
        toks := toks[2..];
      }
      if toks[0] == "," {
        toks := toks[1..];
      } else if toks[0] != "}" {
        return false;
      }
      ok := true;
    }

    /** Drops tokens up to and including the first opening brace. */
    method DropToBrace(ghost bases: seq<Token>, ghost body: seq<Token>) returns (ok: bool)
      modifies `toks
      ensures |toks| <= |old(toks)|
      ensures ("{" !in bases && old(toks) == bases + ["{"] + body) ==> ok && toks == body
    {
      ghost var shaped := "{" !in bases && toks == bases + ["{"] + body;
      ghost var left := bases;
      while true
        invariant |toks| <= |old(toks)|
        invariant shaped ==> "{" !in left && toks == left + ["{"] + body
        decreases |toks|
      {
        assert shaped && left == [] ==> toks == ["{"] + body;
        var tok;
        ok, tok := Pop();
        if !ok || tok == "{" { return; }
        left := if left == [] then [] else left[1..];
      }
    }

    /** Drops tokens up to the first opening brace or semicolon. */
    method DropToBody(ghost bases: seq<Token>, ghost after: seq<Token>)
      modifies `toks
      ensures |toks| <= |old(toks)| && (toks == [] || toks[0] == "{" || toks[0] == ";")
      ensures ("{" !in bases && ";" !in bases && after != [] && (after[0] == "{" || after[0] == ";")
               && old(toks) == bases + after) ==> toks == after
    {
      ghost var shaped := "{" !in bases && ";" !in bases && after != [] && (after[0] == "{" || after[0] == ";")
                          && toks == bases + after;
      ghost var left := bases;
      while toks != [] && toks[0] != "{" && toks[0] != ";"
        invariant |toks| <= |old(toks)|
        invariant shaped ==> "{" !in left && ";" !in left && toks == left + after
        decreases |toks|
      {
        left := if left == [] then [] else left[1..];
        toks := toks[1..];
      }
    }

    /** `enum class` with the keyword `enum` already taken. */
    method DoEnum(ns: seq<Option<Token>>, ghost i: Item, ghost rest: seq<Token>) returns (ok: bool)
      requires toks != []
      modifies this
      ensures |toks| < |old(toks)|
      ensures (i.EnumClass? && GoodItem(i) && ["enum"] + old(toks) == PrintItem(i) + rest) ==>
                && (ok <==> AllSome(ns))
                && (ok ==> toks == rest && enums == CollectOne(old(enums), Names(ns), i))
    {
      ghost var shaped := i.EnumClass? && GoodItem(i) && ["enum"] + toks == PrintItem(i) + rest;
      ghost var body := if i.EnumClass? then PrintEntries(i.entries, i.trailing) + ["}", ";"] + rest else [];
      hide PrintEntries, Keys, Join, PrintItem, GoodItem, AllSome;
      if shaped { EnumStarts(i, toks, rest); }
      var name;
      toks := toks[1..];
      ok, name := Pop();
      if !ok { return; }
      ok := DropToBrace(if i.EnumClass? then i.bases else [], body);
      if !ok { return; }
      if !AllSome(ns) {
        return false;
      }
      ghost var entries, trailing := if i.EnumClass? then i.entries else [], i.EnumClass? && i.trailing;
      ok := DoEnumBody(Join(Names(ns) + [name]), entries, trailing, rest);
    }

    /** A class with the keyword already taken: its body, if it has one, is read like the top
        level, in its own namespace. */
    method DoClass(ns: seq<Option<Token>>, ghost i: Item, ghost rest: seq<Token>) returns (ok: bool)
      modifies this
      ensures |toks| <= |old(toks)|
      ensures ((i.Class? || i.Forward?) && GoodItem(i) && ["class"] + old(toks) == PrintItem(i) + rest) ==>
                && (ok <==> ItemNamed(AllSome(ns), i))
                && (ok ==> toks == [";"] + rest && enums == CollectOne(old(enums), Names(ns), i))
      decreases |toks|, 0
    {
      hide PrintQname, Join, PrintItems, Collect, GoodItems, AllSome, EnumsNamed;
      ghost var shaped := (i.Class? || i.Forward?) && GoodItem(i) && ["class"] + toks == PrintItem(i) + rest;
      ghost var qname := if i.Class? || i.Forward? then i.qname else [];
      ghost var bases := if i.Class? then i.bases else [];
      ghost var members := if i.Class? then i.members else [];
      ghost var after := if i.Class? then ["{"] + PrintItems(members) + ["}", ";"] + rest else [";"] + rest;
      if shaped { ClassStarts(i, toks, rest); }
      var name;
      ok, name := DoQname(qname, bases + after);
      if !ok { return; }
      DropToBody(bases, after);
      if toks == [] {
        return false;
      }
      if toks[0] == "{" {
        toks := toks[1..];
        NamesGrow(ns, name);
        if shaped { BodyOpens(PrintItems(members), rest); }
        ok := DoTopLevel(ns + [Some(name)], members, ["}", ";"] + rest);
      }
    }

    /** A block with the brace already taken: it is read like the top level, in a namespace
        without a name. */
    method DoBlock(ns: seq<Option<Token>>, ghost i: Item, ghost rest: seq<Token>) returns (ok: bool)
      modifies this
      ensures |toks| <= |old(toks)|
      ensures (i.Block? && GoodItem(i) && ["{"] + old(toks) == PrintItem(i) + rest) ==>
                && (ok <==> ItemNamed(AllSome(ns), i))
                && (ok ==> toks == rest && enums == CollectOne(old(enums), Names(ns), i))
      decreases |toks|, 2
    {
      hide PrintItems, PrintItem, Collect, GoodItems, GoodItem, AllSome, EnumsNamed, Names;
      ghost var shaped := i.Block? && GoodItem(i) && ["{"] + toks == PrintItem(i) + rest;
      if shaped { BlockOpens(enums, ns, i, toks, rest); }
      ok := DoTopLevel(ns + [None], if i.Block? then i.members else [], ["}"] + rest);
      assert (["}"] + rest)[1..] == rest;
    }

    /** The declaration of a `to_string`, with that name still to come: its argument type, and
        if that is a known enum its argument. `skip` is what is left to be skipped. */
    method DoToString(ghost i: Item, ghost more: seq<Token>) returns (ok: bool, ghost skip: seq<Token>)
      requires |toks| >= 2
      modifies `toks
      ensures |toks| < |old(toks)|
      ensures (i.ToString? && i.qname != [] && i.arg != "::"
               && old(toks)[2..] == PrintQname(i.qname) + ([i.arg, ")"] + more)) ==>
                && ok && toks == skip + more
                && skip == if Join(i.qname) in enums then [")"] else [i.arg, ")"]
    {
      hide PrintQname, Join;
      toks := toks[2..];
      skip := if i.ToString? then [i.arg, ")"] else [];
      var typ, arg;
      ok, typ := DoQname(if i.ToString? then i.qname else [], if i.ToString? then [i.arg, ")"] + more else []);
      if !ok { return; }
      if typ in enums {
        ok, arg := Pop();
        if !ok || toks == [] || toks[0] != ")" { return false, []; }
        skip := [")"];
      }
    }

    /** The parser: reads items up to the end of the tokens or the end of the namespace. */
    method DoTopLevel(ns: seq<Option<Token>>, ghost items: seq<Item>, ghost rest: seq<Token>) returns (ok: bool)
      modifies this
      ensures |toks| <= |old(toks)|
      ensures Reads(old(toks), ns, items, rest) ==>
                && (ok <==> EnumsNamed(AllSome(ns), items))
                && (ok ==> toks == (if rest == [] then [] else rest[1..])
                           && enums == Collect(old(enums), Names(ns), items))
      decreases |toks|, 1
    {
      hide Going, Reads, PrintItem, PrintItems, PrintQname, Collect, CollectOne, GoodItem, AllSome, Names, Join,
        SkippedBehind, EnumsNamed, ItemNamed, Reading;
      ghost var shaped := Reads(toks, ns, items, rest);
      ghost var want, goal := Collect(enums, Names(ns), items), EnumsNamed(AllSome(ns), items);
      ghost var left, skip: seq<Token> := items, [];
      if shaped { Opened(toks, ns, items, rest, enums); }
      while toks != []
        invariant |toks| <= |old(toks)|
        invariant shaped ==> Reading(toks, ns, skip, left, rest, enums, want, goal)
        decreases |toks|
      {
        ghost var i := if left == [] then Other("") else left[0];
        ghost var tail := if left == [] then [] else left[1..];
        ghost var more := PrintItems(tail) + rest;
        if shaped { Turn(toks, ns, skip, left, rest, enums, want, goal); }
        var tok;
        ok, tok := Pop();
        if tok == "enum" {
          if toks == [] { return false; }
          if toks[0] == "class" {
            ok := DoEnum(ns, i, more);
            if !ok { return; }
            skip, left := [], tail;
          } else {
            skip, left := SkippedBehind(i), tail;
          }
        } else if tok == "class" {
          ok := DoClass(ns, i, more);
          if !ok { return; }
          if shaped { SkipMore([";"], more, ns, tail, rest, enums, want, goal); }
          skip, left := [";"], tail;
        } else if tok == "{" {
          ok := DoBlock(ns, i, more);
          if !ok { return; }
          skip, left := [], tail;
        } else if tok == "}" {
          return ns != [];
        } else if ns == [] && tok == "string" && |toks| >= 2 && toks[0] == "to_string" && toks[1] == "(" {
          if shaped { ArgumentBehind(i, more, ns, tail, rest, enums, want, goal); }
          ok, skip := DoToString(i, more);
          if !ok { return; }
          left := tail;
        } else if skip != [] {
          skip := skip[1..];
        } else {
          skip, left := SkippedBehind(i), tail;
        }
      }
      if shaped { ItemsEnd(ns, left, rest, skip, enums, want, goal); }
      ok := true;
    }
  }

  /** The whole script on the tokens of a header. It stops with an exception if and only if an
      `enum class` lies below a brace block; otherwise, with distinct names, it collects exactly
      the map from every qualified name to its keys in order. */
  method ReadHeader(toks: seq<Token>, ghost items: seq<Item>) returns (ok: bool, enums: Enums)
    requires GoodItems(items) && toks == PrintItems(items)
    ensures ok <==> EnumsNamed(true, items)
    ensures ok && DistinctNames(Declared([], items)) ==>
              var d := Declared([], items);
              && (forall i :: 0 <= i < |d| ==> d[i].0 in enums && enums[d[i].0] == d[i].1)
              && forall k :: k in enums ==> exists i :: 0 <= i < |d| && d[i].0 == k
  {
    hide PrintItems, Collect, Declared, GoodItems, EnumsNamed;
    var reader := new Reader(toks);
    assert Names([]) == [] && toks + [] == toks && AllSome([]);
    ok := reader.DoTopLevel([], items, []);
    if DistinctNames(Declared([], items)) {
      CollectedExactly([], items);
    }
    enums := reader.enums;
  }

  predicate AllSome(ns: seq<Option<Token>>) {
    forall i :: 0 <= i < |ns| ==> ns[i].Some?
  }

  function Names(ns: seq<Option<Token>>): seq<Token> {
    seq(|ns|, i requires 0 <= i < |ns| => if ns[i].Some? then ns[i].value else "")
  }

  lemma NamesGrow(ns: seq<Option<Token>>, name: Token)
    ensures Names(ns + [Some(name)]) == Names(ns) + [name]
    ensures AllSome(ns) <==> AllSome(ns + [Some(name)])
  {
    assert forall i :: 0 <= i < |ns| ==> (ns + [Some(name)])[i] == ns[i];
  }

  /** `toks` are the tokens of `items`, then the end of the input or of the namespace. */
  predicate Reads(toks: seq<Token>, ns: seq<Option<Token>>, items: seq<Item>, rest: seq<Token>) {
    && GoodItems(items) && toks == PrintItems(items) + rest
    && (rest == [] || (rest[0] == "}" && ns != []))
  }

  /** The same in the middle of a run, with tokens to be skipped in front. */
  predicate Going(toks: seq<Token>, ns: seq<Option<Token>>, skip: seq<Token>, items: seq<Item>, rest: seq<Token>) {
    && (forall j :: 0 <= j < |skip| ==> Loose(skip[j]))
    && |skip| <= |toks| && toks[..|skip|] == skip && Reads(toks[|skip|..], ns, items, rest)
  }

  /** What the loop of the parser keeps: the tokens to come, that what has been collected and
      what is to come make `want`, and that the rest can be read if and only if all can. */
  predicate Reading(toks: seq<Token>, ns: seq<Option<Token>>, skip: seq<Token>, items: seq<Item>, rest: seq<Token>,
      e: Enums, want: Enums, goal: bool)
  {
    && Going(toks, ns, skip, items, rest)
    && Collect(e, Names(ns), items) == want
    && EnumsNamed(AllSome(ns), items) == goal
  }

  lemma Opened(toks: seq<Token>, ns: seq<Option<Token>>, items: seq<Item>, rest: seq<Token>, e: Enums)
    requires Reads(toks, ns, items, rest)
    ensures Reading(toks, ns, [], items, rest, e, Collect(e, Names(ns), items), EnumsNamed(AllSome(ns), items))
  {
    GoingOn(toks, ns, items, rest);
  }

  lemma GoingOn(toks: seq<Token>, ns: seq<Option<Token>>, items: seq<Item>, rest: seq<Token>)
    requires Reads(toks, ns, items, rest)
    ensures Going(toks, ns, [], items, rest)
  {
    assert toks[0..] == toks;
  }

  lemma SkipMore(skip: seq<Token>, toks: seq<Token>, ns: seq<Option<Token>>, items: seq<Item>, rest: seq<Token>,
      e: Enums, want: Enums, goal: bool)
    requires Reading(toks, ns, [], items, rest, e, want, goal) && forall j :: 0 <= j < |skip| ==> Loose(skip[j])
    ensures Reading(skip + toks, ns, skip, items, rest, e, want, goal)
  {
    hide Reads, Loose, Collect, EnumsNamed;
    assert (skip + toks)[|skip|..] == toks == toks[0..];
  }

  /** What the parser skips after the first token of an item it has no branch for. */
  function SkippedBehind(i: Item): seq<Token> {
    match i
    case Pair(_, second) => [second]
    case ToString(qname, arg) => ["to_string", "("] + PrintQname(qname) + [arg, ")"]
    case _ => []
  }

  lemma {:induction false} QnameLoose(qname: seq<Token>)
    requires forall j :: 0 <= j < |qname| ==> Loose(qname[j])
    ensures forall j :: 0 <= j < |PrintQname(qname)| ==> Loose(PrintQname(qname)[j])
  {
    if |qname| > 1 { QnameLoose(qname[1..]); }
  }

  lemma SkippedLoose(i: Item)
    requires GoodItem(i)
    ensures forall j :: 0 <= j < |SkippedBehind(i)| ==> Loose(SkippedBehind(i)[j])
  {
    hide GoodItems;
    if i.ToString? { QnameLoose(i.qname); }
  }

  /** The start of an item, by its first tokens. */
  predicate Starts(toks: seq<Token>, i: Item, more: seq<Token>) {
    && toks != [] && toks == PrintItem(i) + more
    && match i
       case EnumClass(_, _, _, _) => |toks| > 1 && toks[0] == "enum" && toks[1] == "class"
       case Class(_, _, _) => toks[0] == "class"
       case Forward(_) => toks[0] == "class"
       case Block(_) => toks[0] == "{"
       case Pair(first, second) =>
         && |toks| > 1 && toks[0] == first && toks[1] == second && toks[1..] == SkippedBehind(i) + more
         && (first == "enum" || (first == "string" && second != "to_string")) && Loose(second)
       case ToString(qname, arg) =>
         && |toks| > 2 && toks[0] == "string" && toks[1] == "to_string" && toks[2] == "("
         && toks[3..] == PrintQname(qname) + ([arg, ")"] + more) && toks[1..] == SkippedBehind(i) + more
       case Other(_) => Loose(toks[0]) && toks[1..] == SkippedBehind(i) + more
  }

  lemma ItemStarts(i: Item, more: seq<Token>)
    requires GoodItem(i)
    ensures Starts(PrintItem(i) + more, i, more)
  {
    hide PrintItems, PrintEntries, PrintQname, GoodItems;
    var toks := PrintItem(i) + more;
    match i
    case ToString(qname, arg) =>
      assert toks[3..] == PrintQname(qname) + ([arg, ")"] + more);
      assert toks[1..] == SkippedBehind(i) + more;
    case Pair(_, _) =>
      assert toks[1..] == SkippedBehind(i) + more;
    case Other(_) =>
      assert toks[1..] == SkippedBehind(i) + more;
    case _ =>
  }

  /** What one turn of the parser's loop finds: a token to be skipped, the end, or an item. */
  lemma Turn(toks: seq<Token>, ns: seq<Option<Token>>, skip: seq<Token>, items: seq<Item>, rest: seq<Token>,
      e: Enums, want: Enums, goal: bool)
    requires Reading(toks, ns, skip, items, rest, e, want, goal) && toks != []
    ensures [toks[0]] + toks[1..] == toks
    ensures skip != [] ==> Loose(toks[0]) && Reading(toks[1..], ns, skip[1..], items, rest, e, want, goal)
    ensures skip == [] && items == [] ==> toks == rest && toks[0] == "}" && ns != [] && e == want && goal
    ensures skip == [] && items != [] ==>
              && Starts(toks, items[0], PrintItems(items[1..]) + rest)
              && ItemNext(toks, ns, items, rest, e, want, goal)
  {
    hide PrintItems, GoodItems;
    if skip != [] {
      hide Reads, Collect, EnumsNamed;
      assert toks[1..][|skip| - 1..] == toks[|skip|..] && toks[1..][..|skip| - 1] == skip[1..];
      assert toks[0] == toks[..|skip|][0];
    } else {
      assert toks[0..] == toks;
      if items == [] {
        NoItems(rest);
      } else {
        ItemTurn(toks, ns, items, rest, e, want, goal);
      }
    }
  }

  lemma NoItems(rest: seq<Token>)
    ensures PrintItems([]) + rest == rest
  {
  }

  /** The first item is next: its first tokens, whether it can be read, and what there is to
      read behind it. */
  predicate ItemNext(toks: seq<Token>, ns: seq<Option<Token>>, items: seq<Item>, rest: seq<Token>,
      e: Enums, want: Enums, goal: bool)
    requires items != []
  {
    var i, more, tail := items[0], PrintItems(items[1..]) + rest, items[1..];
    && GoodItem(i) && Starts(toks, i, more)
    && (i.EnumClass? ==> (ItemNamed(AllSome(ns), i) <==> AllSome(ns)))
    && (!ItemNamed(AllSome(ns), i) ==> !goal)
    && (ItemNamed(AllSome(ns), i) ==> Reading(more, ns, [], tail, rest, CollectOne(e, Names(ns), i), want, goal))
    && (!i.EnumClass? && !i.Class? ==> CollectOne(e, Names(ns), i) == e)
    && (i.Forward? ==> ItemNamed(AllSome(ns), i))
    && (i.ToString? ==> ItemNamed(AllSome(ns), i))
    && (i.Other? || i.Pair? || i.ToString? ==> Reading(toks[1..], ns, SkippedBehind(i), tail, rest, e, want, goal))
  }

  lemma ItemTurn(toks: seq<Token>, ns: seq<Option<Token>>, items: seq<Item>, rest: seq<Token>,
      e: Enums, want: Enums, goal: bool)
    requires Reads(toks, ns, items, rest) && items != []
    requires Collect(e, Names(ns), items) == want && EnumsNamed(AllSome(ns), items) == goal
    ensures ItemNext(toks, ns, items, rest, e, want, goal)
  {
    var i, more, tail := items[0], PrintItems(items[1..]) + rest, items[1..];
    assert GoodItem(i) && GoodItems(tail);
    assert toks == PrintItem(i) + more by { Associate(PrintItem(i), PrintItems(tail), rest); }
    hide PrintItem, PrintItems, GoodItem, GoodItems, Collect, CollectOne, EnumsNamed, ItemNamed;
    CollectStep(e, Names(ns), items);
    NamedStep(AllSome(ns), items);
    ItemStarts(i, more);
    GoingOn(more, ns, tail, rest);
    SkippedLoose(i);
    if i.Other? || i.Pair? || i.ToString? {
      SkipMore(SkippedBehind(i), more, ns, tail, rest, e, want, goal);
    }
  }

  /** Whether the parser gets past the first item, and what it takes to get past the rest. */
  lemma NamedStep(named: bool, items: seq<Item>)
    ensures items == [] ==> EnumsNamed(named, items)
    ensures items != [] ==>
              && (EnumsNamed(named, items) <==> ItemNamed(named, items[0]) && EnumsNamed(named, items[1..]))
    ensures items != [] && items[0].Block? ==> (ItemNamed(named, items[0]) <==> EnumsNamed(false, items[0].members))
    ensures items != [] && items[0].EnumClass? ==> (ItemNamed(named, items[0]) <==> named)
    ensures items != [] && !items[0].Class? && !items[0].Block? && !items[0].EnumClass? ==> ItemNamed(named, items[0])
  {
  }

  /** Behind the name of a `to_string` declaration: its argument and a parenthesis. */
  lemma ArgumentBehind(i: Item, more: seq<Token>, ns: seq<Option<Token>>, items: seq<Item>, rest: seq<Token>,
      e: Enums, want: Enums, goal: bool)
    requires i.ToString? && GoodItem(i) && Reading(more, ns, [], items, rest, e, want, goal)
    ensures i.arg != "::" && i.qname != []
    ensures Reading([i.arg, ")"] + more, ns, [i.arg, ")"], items, rest, e, want, goal)
    ensures Reading([")"] + more, ns, [")"], items, rest, e, want, goal)
  {
    hide Reading;
    SkipMore([i.arg, ")"], more, ns, items, rest, e, want, goal);
    SkipMore([")"], more, ns, items, rest, e, want, goal);
  }

  lemma BlockOpens(e: Enums, ns: seq<Option<Token>>, i: Item, toks: seq<Token>, more: seq<Token>)
    requires i.Block? && GoodItem(i) && ["{"] + toks == PrintItem(i) + more
    ensures Reads(toks, ns + [None], i.members, ["}"] + more)
    ensures !AllSome(ns + [None])
    ensures EnumsNamed(false, i.members) ==> Collect(e, Names(ns + [None]), i.members) == e
  {
    hide Collect, Names;
    assert (ns + [None])[|ns|].None?;
    if EnumsNamed(false, i.members) {
      UnnamedCollects(e, Names(ns + [None]), i.members);
    }
    assert toks == (["{"] + toks)[1..];
    assert PrintItem(i) + more == ["{"] + (PrintItems(i.members) + (["}"] + more));
  }

  lemma CollectStep(e: Enums, ns: seq<Token>, items: seq<Item>)
    ensures items == [] ==> Collect(e, ns, items) == e
    ensures items != [] ==> Collect(e, ns, items) == Collect(CollectOne(e, ns, items[0]), ns, items[1..])
    ensures items != [] && !items[0].EnumClass? && !items[0].Class? ==> CollectOne(e, ns, items[0]) == e
  {
  }

  lemma ItemsEnd(ns: seq<Option<Token>>, items: seq<Item>, rest: seq<Token>, skip: seq<Token>,
      e: Enums, want: Enums, goal: bool)
    requires Reading([], ns, skip, items, rest, e, want, goal)
    ensures rest == [] && e == want && goal
  {
    var none: seq<Token> := [];
    assert none[0..] == none;
    if items != [] {
      ItemTurn([], ns, items, rest, e, want, goal);
    } else {
      NoItems(rest);
    }
  }

  lemma BodyOpens(body: seq<Token>, rest: seq<Token>)
    ensures (["{"] + body + ["}", ";"] + rest)[1..] == body + (["}", ";"] + rest)
  {
  }

  /** What follows equal first tokens is equal. */
  lemma Behind(tok: Token, a: seq<Token>, b: seq<Token>)
    requires [tok] + a == [tok] + b
    ensures a == b
  {
    assert a == ([tok] + a)[1..] && b == ([tok] + b)[1..];
  }

  lemma Associate(a: seq<Token>, b: seq<Token>, c: seq<Token>)
    ensures a + b + c == a + (b + c)
  {
  }

  lemma EnumStarts(i: Item, toks: seq<Token>, rest: seq<Token>)
    requires i.EnumClass? && GoodItem(i) && ["enum"] + toks == PrintItem(i) + rest
    ensures toks == ["class", i.name] + (i.bases + ["{"] + (PrintEntries(i.entries, i.trailing) + ["}", ";"] + rest))
    ensures "{" !in i.bases && forall j :: 0 <= j < |i.entries| ==> i.entries[j].key != "}"
  {
    hide PrintEntries;
    var head, bases, body, end := ["enum", "class", i.name], i.bases, PrintEntries(i.entries, i.trailing), ["}", ";"];
    var tail := bases + ["{"] + (body + end + rest);
    Associate(head + bases + ["{"] + body, end, rest);
    Associate(head + bases + ["{"], body, end + rest);
    Associate(body, end, rest);
    Associate(head + bases, ["{"], body + end + rest);
    Associate(head, bases, ["{"] + (body + end + rest));
    Associate(bases, ["{"], body + end + rest);
    assert ["enum"] + (["class", i.name] + tail) == head + tail;
    Behind("enum", toks, ["class", i.name] + tail);
  }

  lemma ClassStarts(i: Item, toks: seq<Token>, rest: seq<Token>)
    requires (i.Class? || i.Forward?) && ["class"] + toks == PrintItem(i) + rest
    ensures i.Class? ==> toks == PrintQname(i.qname) + (i.bases + (["{"] + PrintItems(i.members) + ["}", ";"] + rest))
    ensures i.Forward? ==> toks == PrintQname(i.qname) + ([] + ([";"] + rest))
  {
    hide PrintItems, PrintQname;
    assert toks == (["class"] + toks)[1..];
  }

  lemma PrintEntriesStep(entries: seq<Entry>, trailing: bool)
    requires entries != []
    ensures PrintEntries(entries, trailing)
            == [entries[0].key] + (ValueTokens(entries[0].value) + CommaTokens(|entries| > 1 || trailing)
                                   + PrintEntries(entries[1..], trailing))
  {
  }

  function ValueTokens(value: Option<Token>): seq<Token> {
    if value.Some? then ["=", value.value] else []
  }

  function CommaTokens(comma: bool): seq<Token> {
    if comma then [","] else []
  }

  lemma KeysGrow(entries: seq<Entry>, k: nat)
    requires k < |entries|
    ensures Keys(entries[..k + 1]) == Keys(entries[..k]) + [entries[k].key]
  {
  }

  lemma KeysStart(entries: seq<Entry>)
    ensures Keys(entries[..0]) == []
  {
  }

  lemma QnameStarts(parts: seq<Token>, rest: seq<Token>)
    ensures |parts| == 1 ==> (PrintQname(parts) + rest)[0] == parts[0] && (PrintQname(parts) + rest)[1..] == rest
    ensures |parts| > 1 ==> (PrintQname(parts) + rest) == [parts[0], "::"] + (PrintQname(parts[1..]) + rest)
  {
  }

  lemma QnameStep(res: seq<Token>, left: seq<Token>, parts: seq<Token>)
    requires res + left == parts && left != []
    ensures res + [left[0]] + left[1..] == parts
    ensures |left| == 1 ==> res + [left[0]] == parts
  {
  }

  /** What the tokens of an enum body start with. */
  lemma EntryStarts(entries: seq<Entry>, k: nat, trailing: bool, rest: seq<Token>)
    requires k <= |entries|
    ensures var toks := PrintEntries(entries[k..], trailing) + ["}", ";"] + rest;
            if k == |entries| then toks == ["}", ";"] + rest
            else
              var e := entries[k];
              var more := PrintEntries(entries[k + 1..], trailing) + ["}", ";"] + rest;
              var comma := k + 1 < |entries| || trailing;
              && toks == [e.key] + (ValueTokens(e.value) + CommaTokens(comma) + more)
              && more != [] && (!comma ==> more[0] == "}")
  {
    var left := entries[k..];
    if k == |entries| {
      NoEntries(trailing);
    } else {
      PrintEntriesStep(left, trailing);
      assert left[1..] == entries[k + 1..];
      hide PrintEntries, ValueTokens, CommaTokens;
      var v, c, p := ValueTokens(left[0].value), CommaTokens(|left| > 1 || trailing), PrintEntries(left[1..], trailing);
      Associate([left[0].key], v + c + p, ["}", ";"]);
      Associate([left[0].key], v + c + p + ["}", ";"], rest);
      Associate(v + c, p, ["}", ";"]);
      Associate(v + c, p + ["}", ";"], rest);
      NoEntries(trailing);
    }
  }

  lemma NoEntries(trailing: bool)
    ensures PrintEntries([], trailing) == []
  {
  }
}
