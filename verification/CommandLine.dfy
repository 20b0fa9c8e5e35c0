/** How option strings and command lines are written, and that getopt reads them as they are meant. */
module CommandLine {
  import opened Getopt

  // ---------------------------------------------------------------- option strings

  /** An option character and whether it takes an argument. */
  datatype Decl = Decl(c: char, kind: Kind)

  predicate GoodDecls(decls: seq<Decl>) {
    forall k :: 0 <= k < |decls| ==> decls[k].c != ':' && decls[k].kind != Unknown
  }

  /** A colon stands for a required argument, two for an optional one. */
  function Colons(kind: Kind): string {
    match kind
    case RequiredArg => ":"
    case OptionalArg => "::"
    case _ => ""
  }

  function Declared(decls: seq<Decl>): string {
    if decls == [] then "" else [decls[0].c] + Colons(decls[0].kind) + Declared(decls[1..])
  }

  /** The first declaration of a character counts. */
  function KindIn(decls: seq<Decl>, c: char): Kind {
    if decls == [] then Unknown else if decls[0].c == c then decls[0].kind else KindIn(decls[1..], c)
  }

  lemma {:induction false} IndexBehind(u: string, s: string, c: char)
    requires c !in u
    ensures FirstIndex(u + s, c) == match FirstIndex(s, c) case None => None case Some(i) => Some(|u| + i)
    decreases |u|
  {
    if u == "" {
      assert u + s == s;
    } else {
      assert (u + s)[1..] == u[1..] + s;
      IndexBehind(u[1..], s, c);
    }
  }

  /** What stands before the first occurrence of a character does not matter. */
  lemma KindBehind(u: string, s: string, c: char)
    requires c !in u
    ensures KindOf(u + s, c) == KindOf(s, c)
  {
    IndexBehind(u, s, c);
    hide FirstIndex;
  }

  /** In any option string: the kind of an option is read from the colons behind its first occurrence. */
  lemma KindAt(u: string, c: char, v: string)
    requires c != ':' && c !in u
    ensures var kind := KindOf(u + [c] + v, c);
            && kind != Unknown
            && (kind == Plain <==> v == "" || v[0] != ':')
            && (kind == RequiredArg <==> v != "" && v[0] == ':' && (|v| == 1 || v[1] != ':'))
            && (kind == OptionalArg <==> |v| >= 2 && v[..2] == "::")
  {
    assert u + [c] + v == u + ([c] + v);
    KindBehind(u, [c] + v, c);
    assert |v| >= 2 ==> v[..2] == [v[0], v[1]];
  }

  /** A character that does not occur, and the colon, are no options. */
  lemma KindUnknown(optstring: string, c: char)
    ensures KindOf(optstring, c) == Unknown <==> c !in optstring || c == ':'
  {
    var i := FirstIndex(optstring, c);
    hide FirstIndex;
  }

  /** Every option has the kind of its first declaration, and no other character is an option, also behind
      the colon in front that asks for quiet errors. */
  lemma {:induction false} KindDeclared(prefix: string, decls: seq<Decl>, c: char)
    requires GoodDecls(decls) && (prefix == "" || prefix == ":")
    ensures KindOf(prefix + Declared(decls), c) == KindIn(decls, c)
    decreases |decls|
  {
    hide KindOf, Declared;
    if c == ':' {
      ColonUndeclared(decls);
      KindUnknown(prefix + Declared(decls), c);
    } else if decls == [] {
      NoneDeclared();
      KindUnknown(prefix + "", c);
    } else {
      var d, rest := decls[0], decls[1..];
      assert decls == [d] + rest;
      if d.c == c {
        FirstDeclared(prefix, d, rest);
      } else {
        OtherDeclared(prefix, d, rest, c);
        KindDeclared("", rest, c);
        assert "" + Declared(rest) == Declared(rest);
      }
    }
  }

  lemma NoneDeclared()
    ensures Declared([]) == ""
  {
  }

  lemma OtherDeclared(prefix: string, d: Decl, decls: seq<Decl>, c: char)
    requires d.c != c && c != ':' && (prefix == "" || prefix == ":")
    ensures KindOf(prefix + Declared([d] + decls), c) == KindOf(Declared(decls), c)
  {
    hide KindOf;
    assert ([d] + decls)[0] == d && ([d] + decls)[1..] == decls;
    var u := prefix + [d.c] + Colons(d.kind);
    assert prefix + Declared([d] + decls) == u + Declared(decls);
    hide Declared;
    KindBehind(u, Declared(decls), c);
  }

  lemma FirstDeclared(prefix: string, d: Decl, decls: seq<Decl>)
    requires GoodDecls([d] + decls) && (prefix == "" || prefix == ":")
    ensures KindOf(prefix + Declared([d] + decls), d.c) == d.kind
  {
    hide KindOf, Declared, Colons;
    DeclaredFirst(d, decls);
    RestStarts(decls);
    ColonsRead(d.kind, Declared(decls));
    var v := Colons(d.kind) + Declared(decls);
    assert prefix + ([d.c] + v) == prefix + [d.c] + v;
    KindAt(prefix, d.c, v);
  }

  lemma DeclaredFirst(d: Decl, decls: seq<Decl>)
    requires GoodDecls([d] + decls)
    ensures Declared([d] + decls) == [d.c] + (Colons(d.kind) + Declared(decls))
    ensures d.c != ':' && d.kind != Unknown && GoodDecls(decls)
  {
    assert ([d] + decls)[0] == d && ([d] + decls)[1..] == decls;
    assert forall k :: 0 <= k < |decls| ==> decls[k] == ([d] + decls)[k + 1];
  }

  /** The colons of a declaration in front of the next one. */
  lemma ColonsRead(kind: Kind, rest: string)
    requires kind != Unknown && (rest == "" || rest[0] != ':')
    ensures var v := Colons(kind) + rest;
            && (kind == Plain ==> v == "" || v[0] != ':')
            && (kind == RequiredArg ==> v != "" && v[0] == ':' && (|v| == 1 || v[1] != ':'))
            && (kind == OptionalArg ==> |v| >= 2 && v[..2] == "::")
  {
  }

  lemma RestStarts(decls: seq<Decl>)
    requires GoodDecls(decls)
    ensures Declared(decls) == "" || Declared(decls)[0] != ':'
  {
  }

  lemma ColonUndeclared(decls: seq<Decl>)
    requires GoodDecls(decls)
    ensures KindIn(decls, ':') == Unknown
  {
  }

  // ---------------------------------------------------------------- command lines

  /** How an option element ends: without an argument, with one in the same element, which may be empty, or
      with one in the next element. */
  datatype Last = NoArgument | Attached(c: char, arg: string) | Separate(c: char, arg: string)

  /** An operand, or an option element: options without arguments, and perhaps one with an argument. */
  datatype Word = Operand(text: string) | Options(flags: string, last: Last)

  /** How a command line ends: with its last word, with "--" and what follows it, or with an option element
      whose last option lacks its argument. */
  datatype Tail = NoMore | Dashes(after: seq<string>) | Lacking(flags: string, c: char)

  function Element(flags: string, last: Last): string {
    match last
    case NoArgument => "-" + flags
    case Attached(c, arg) => "-" + flags + [c] + arg
    case Separate(c, _) => "-" + flags + [c]
  }

  function Written(w: Word): seq<string> {
    match w
    case Operand(text) => [text]
    case Options(flags, last) => [Element(flags, last)] + if last.Separate? then [last.arg] else []
  }

  function Ending(tail: Tail): seq<string> {
    match tail
    case NoMore => []
    case Dashes(after) => ["--"] + after
    case Lacking(flags, c) => ["-" + flags + [c]]
  }

  function Line(words: seq<Word>, tail: Tail): seq<string> {
    if words == [] then Ending(tail) else Written(words[0]) + Line(words[1..], tail)
  }

  predicate GoodFlags(optstring: string, flags: string) {
    forall k :: 0 <= k < |flags| ==> KindOf(optstring, flags[k]) in {Plain, Unknown}
  }

  predicate GoodWord(optstring: string, w: Word) {
    match w
    case Operand(text) => text == "" || text == "-" || text[0] != '-'
    case Options(flags, last) =>
      && GoodFlags(optstring, flags) && Element(flags, last) != "-" && Element(flags, last) != "--"
      && match last
         case NoArgument => true
         case Attached(c, arg) =>
           KindOf(optstring, c) == OptionalArg || (KindOf(optstring, c) == RequiredArg && arg != "")
         case Separate(c, _) => KindOf(optstring, c) == RequiredArg
  }

  predicate GoodWords(optstring: string, words: seq<Word>) {
    forall k :: 0 <= k < |words| ==> GoodWord(optstring, words[k])
  }

  predicate GoodTail(optstring: string, tail: Tail) {
    tail.Lacking? ==>
      GoodFlags(optstring, tail.flags) && KindOf(optstring, tail.c) == RequiredArg && "-" + tail.flags + [tail.c] != "--"
  }

  /** What the options of a word mean; a character that is not declared is an error. */
  function FlagItems(optstring: string, flags: string): seq<Item> {
    if flags == "" then []
    else
      [if KindOf(optstring, flags[0]) == Plain then Item(flags[0], None, None) else Item('?', None, Some(flags[0]))]
      + FlagItems(optstring, flags[1..])
  }

  function LastItems(last: Last): seq<Item> {
    match last
    case NoArgument => []
    case Attached(c, arg) => [Item(c, if arg == "" then None else Some(arg), None)]
    case Separate(c, arg) => [Item(c, Some(arg), None)]
  }

  function WordItems(optstring: string, w: Word): seq<Item> {
    if w.Operand? then [] else FlagItems(optstring, w.flags) + LastItems(w.last)
  }

  function TailItems(optstring: string, tail: Tail): seq<Item> {
    if tail.Lacking? then
      FlagItems(optstring, tail.flags)
      + [Item(if optstring != "" && optstring[0] == ':' then ':' else '?', None, Some(tail.c))]
    else []
  }

  function TailParse(optstring: string, tail: Tail): Parse {
    match tail
    case NoMore => Parse([], [], [], Exhausted)
    case Dashes(after) => Parse([], ["--"], after, Terminator)
    case Lacking(_, _) => Parse(TailItems(optstring, tail), Ending(tail), [], MissingArg)
  }

  /** What a command line means: the options of its words in order; the option elements with their
      arguments are taken, the operands are left. */
  function Meaning(optstring: string, words: seq<Word>, tail: Tail): Parse {
    if words == [] then TailParse(optstring, tail)
    else
      var p := Meaning(optstring, words[1..], tail);
      if words[0].Operand? then p.(rest := [words[0].text] + p.rest)
      else p.(items := WordItems(optstring, words[0]) + p.items, taken := Written(words[0]) + p.taken)
  }

  /** Options without arguments, and then the rest of their element. */
  lemma {:induction false} FlagsScanned(optstring: string, flags: string, chars: string, args: seq<string>)
    requires GoodFlags(optstring, flags)
    ensures var p := ScanCluster(chars, args, optstring);
            ScanCluster(flags + chars, args, optstring) == p.(items := FlagItems(optstring, flags) + p.items)
    decreases |flags|
  {
    hide KindOf, ScanCluster, FlagItems;
    var p := ScanCluster(chars, args, optstring);
    if flags == "" {
      NoFlags(optstring);
      assert flags + chars == chars && [] + p.items == p.items;
    } else {
      assert KindOf(optstring, flags[0]) in {Plain, Unknown};
      FlagScanned(optstring, flags[0], flags[1..] + chars, args);
      assert flags + chars == [flags[0]] + (flags[1..] + chars);
      FlagsScanned(optstring, flags[1..], chars, args);
      FirstFlag(optstring, flags, p.items);
    }
  }

  lemma NoFlags(optstring: string)
    ensures FlagItems(optstring, "") == []
  {
  }

  lemma FirstFlag(optstring: string, flags: string, more: seq<Item>)
    requires flags != ""
    ensures var item := if KindOf(optstring, flags[0]) == Plain then Item(flags[0], None, None) else Item('?', None, Some(flags[0]));
            FlagItems(optstring, flags) + more == [item] + (FlagItems(optstring, flags[1..]) + more)
  {
    hide KindOf;
  }

  lemma FlagScanned(optstring: string, c: char, chars: string, args: seq<string>)
    requires KindOf(optstring, c) in {Plain, Unknown}
    ensures var p := ScanCluster(chars, args, optstring);
            var item := if KindOf(optstring, c) == Plain then Item(c, None, None) else Item('?', None, Some(c));
            ScanCluster([c] + chars, args, optstring) == p.(items := [item] + p.items)
  {
    hide KindOf;
    assert ([c] + chars)[1..] == chars;
  }

  lemma LastScanned(optstring: string, last: Last, args: seq<string>)
    requires last.Attached? && (KindOf(optstring, last.c) == OptionalArg || (KindOf(optstring, last.c) == RequiredArg && last.arg != ""))
    ensures var p := Scan(args, optstring);
            ScanCluster([last.c] + last.arg, args, optstring) == p.(items := LastItems(last) + p.items)
  {
    hide KindOf;
    assert ([last.c] + last.arg)[1..] == last.arg;
  }

  lemma ElementIs(flags: string, last: Last)
    ensures Element(flags, last) == "-" + (flags + match last case NoArgument => "" case Attached(c, arg) => [c] + arg case Separate(c, _) => [c])
  {
  }

  /** An option element in front of further arguments. */
  lemma ElementScanned(optstring: string, text: string, args: seq<string>)
    requires text != "" && text != "-"
    ensures var p := ScanCluster(text, args, optstring);
            Scan(["-" + text] + args, optstring) == p.(taken := ["-" + text] + p.taken)
  {
    assert (["-" + text] + args)[1..] == args && ("-" + text)[1..] == text;
  }

  lemma WordScanned(optstring: string, w: Word, args: seq<string>)
    requires w.Options? && GoodWord(optstring, w)
    ensures var p := Scan(args, optstring);
            Scan(Written(w) + args, optstring) ==
            p.(items := WordItems(optstring, w) + p.items, taken := Written(w) + p.taken)
  {
    hide KindOf, GoodFlags, FlagItems, Scan, ScanCluster, Element;
    var p := Scan(args, optstring);
    ElementIs(w.flags, w.last);
    match w.last {
      case NoArgument =>
        assert w.flags + "" == w.flags && Written(w) + args == ["-" + w.flags] + args;
        ElementScanned(optstring, w.flags, args);
        FlagsScanned(optstring, w.flags, "", args);
        ClusterEnds(args, optstring);
        assert FlagItems(optstring, w.flags) + [] == FlagItems(optstring, w.flags);
      case Attached(c, arg) =>
        assert Written(w) + args == ["-" + (w.flags + ([c] + arg))] + args;
        ElementScanned(optstring, w.flags + ([c] + arg), args);
        FlagsScanned(optstring, w.flags, [c] + arg, args);
        LastScanned(optstring, w.last, args);
        assert FlagItems(optstring, w.flags) + (LastItems(w.last) + p.items) == WordItems(optstring, w) + p.items;
      case Separate(c, arg) =>
        var text := w.flags + [c];
        assert Written(w) + args == ["-" + text] + ([arg] + args);
        ElementScanned(optstring, text, [arg] + args);
        FlagsScanned(optstring, w.flags, [c], [arg] + args);
        SeparateScanned(optstring, c, arg, args);
        assert FlagItems(optstring, w.flags) + ([Item(c, Some(arg), None)] + p.items) == WordItems(optstring, w) + p.items;
        assert ["-" + text] + ([arg] + p.taken) == Written(w) + p.taken;
    }
  }

  lemma ClusterEnds(args: seq<string>, optstring: string)
    ensures ScanCluster("", args, optstring) == Scan(args, optstring)
  {
  }

  lemma SeparateScanned(optstring: string, c: char, arg: string, args: seq<string>)
    requires KindOf(optstring, c) == RequiredArg
    ensures var p := Scan(args, optstring);
            ScanCluster([c], [arg] + args, optstring) ==
            p.(items := [Item(c, Some(arg), None)] + p.items, taken := [arg] + p.taken)
  {
    hide KindOf;
    assert [c][1..] == "" && ([arg] + args)[1..] == args;
  }

  lemma TailScanned(optstring: string, tail: Tail)
    requires GoodTail(optstring, tail)
    ensures Scan(Ending(tail), optstring) == TailParse(optstring, tail)
  {
    hide KindOf, GoodFlags, FlagItems;
    match tail {
      case NoMore =>
      case Dashes(after) =>
        assert (["--"] + after)[1..] == after;
      case Lacking(flags, c) =>
        var text := flags + [c];
        hide Scan, ScanCluster;
        assert "-" + flags + [c] == "-" + text && ["-" + text] + [] == ["-" + text];
        ElementScanned(optstring, text, []);
        FlagsScanned(optstring, flags, [c], []);
        LackingScanned(optstring, c);
    }
  }

  lemma LackingScanned(optstring: string, c: char)
    requires KindOf(optstring, c) == RequiredArg
    ensures ScanCluster([c], [], optstring)
         == Parse([Item(if optstring != "" && optstring[0] == ':' then ':' else '?', None, Some(c))], [], [], MissingArg)
  {
    hide KindOf;
    assert [c][1..] == "";
  }

  /** A command line is read as it is meant. */
  lemma {:induction false} LineScanned(optstring: string, words: seq<Word>, tail: Tail)
    requires GoodWords(optstring, words) && GoodTail(optstring, tail)
    ensures Scan(Line(words, tail), optstring) == Meaning(optstring, words, tail)
    decreases |words|
  {
    hide Scan, GoodWord, GoodTail, WordItems, Written, TailParse;
    if words == [] {
      TailScanned(optstring, tail);
    } else {
      LineScanned(optstring, words[1..], tail);
      if words[0].Operand? {
        OperandScanned(optstring, words[0].text, Line(words[1..], tail));
      } else {
        WordScanned(optstring, words[0], Line(words[1..], tail));
      }
    }
  }

  lemma OperandScanned(optstring: string, text: string, args: seq<string>)
    requires GoodWord(optstring, Operand(text))
    ensures var p := Scan(args, optstring);
            Scan(Written(Operand(text)) + args, optstring) == p.(rest := [text] + p.rest)
  {
    assert ([text] + args)[1..] == args;
  }

  /** The options in front of the first one that takes an argument. */
  lemma {:induction false} FlagsInFront(optstring: string, text: string) returns (flags: string, more: string)
    ensures text == flags + more && GoodFlags(optstring, flags)
    ensures more != "" ==> KindOf(optstring, more[0]) in {OptionalArg, RequiredArg}
    decreases |text|
  {
    hide KindOf;
    if text == "" || KindOf(optstring, text[0]) in {OptionalArg, RequiredArg} {
      flags, more := "", text;
    } else {
      flags, more := FlagsInFront(optstring, text[1..]);
      KindOneOf(KindOf(optstring, text[0]));
      flags := FlagAdded(optstring, text[0], flags);
    }
  }

  lemma KindOneOf(kind: Kind)
    ensures kind in {Plain, Unknown} || kind in {OptionalArg, RequiredArg}
  {
  }

  lemma FlagAdded(optstring: string, c: char, flags: string) returns (more: string)
    requires GoodFlags(optstring, flags) && KindOf(optstring, c) in {Plain, Unknown}
    ensures more == [c] + flags && GoodFlags(optstring, more)
  {
    hide KindOf;
    more := [c] + flags;
  }

  /** Every argument vector is such a command line, so LineScanned says what any of them means. */
  lemma {:induction false} EveryLine(optstring: string, args: seq<string>) returns (words: seq<Word>, tail: Tail)
    ensures GoodWords(optstring, words) && GoodTail(optstring, tail) && args == Line(words, tail)
    decreases |args|
  {
    hide KindOf, GoodFlags;
    if args == [] {
      words, tail := [], NoMore;
    } else if args[0] == "--" {
      words, tail := [], Dashes(args[1..]);
      assert args == ["--"] + args[1..];
    } else if args[0] == "" || args[0] == "-" || args[0][0] != '-' {
      words, tail := EveryLine(optstring, args[1..]);
      words := AddWord(optstring, Operand(args[0]), words, tail);
      assert args == [args[0]] + args[1..];
    } else {
      var text := args[0][1..];
      assert args[0] == "-" + text && args == [args[0]] + args[1..];
      var flags, more := FlagsInFront(optstring, text);
      if more != "" && more[1..] == "" && KindOf(optstring, more[0]) == RequiredArg {
        assert more == [more[0]] && "-" + flags + [more[0]] == args[0];
        if |args| == 1 {
          words, tail := [], Lacking(flags, more[0]);
        } else {
          words, tail := EveryLine(optstring, args[2..]);
          words := AddWord(optstring, Options(flags, Separate(more[0], args[1])), words, tail);
          assert args == [args[0]] + [args[1]] + args[2..];
        }
      } else {
        var last := if more == "" then NoArgument else Attached(more[0], more[1..]);
        assert more != "" ==> more == [more[0]] + more[1..];
        assert Element(flags, last) == args[0];
        words, tail := EveryLine(optstring, args[1..]);
        words := AddWord(optstring, Options(flags, last), words, tail);
      }
    }
  }

  lemma AddWord(optstring: string, w: Word, words: seq<Word>, tail: Tail) returns (more: seq<Word>)
    requires GoodWord(optstring, w) && GoodWords(optstring, words)
    ensures GoodWords(optstring, more) && Line(more, tail) == Written(w) + Line(words, tail)
  {
    hide GoodWord;
    more := [w] + words;
    assert more[1..] == words;
  }

  /** The option loop of a program on a command line: it sees the options as they are meant, and leaves the
      operands behind them. */
  method ParseLine(scanner: Scanner, argv: array<string>, optstring: string, ghost words: seq<Word>, ghost tail: Tail)
    returns (seen: seq<(char, Option<string>)>)
    requires argv.Length >= 1 && scanner.optind == 0 && argv[1..] == Line(words, tail)
    requires optstring == "" || (optstring[0] != '-' && optstring[0] != '+')
    requires GoodWords(optstring, words) && GoodTail(optstring, tail)
    modifies argv, scanner
    ensures var p := Meaning(optstring, words, tail);
            && |seen| == |p.items|
            && (forall k :: 0 <= k < |seen| ==> seen[k] == (p.items[k].ret, p.items[k].optarg))
            && argv[..] == [old(argv[0])] + p.taken + p.rest
            && scanner.optind == 1 + |p.taken|
  {
    hide Scan, Meaning, Line, GoodWords, GoodTail;
    LineScanned(optstring, words, tail);
    seen := scanner.ParseAll(argv, optstring);
  }

  /** An option with a single colon behind it takes the next element for its argument, whatever else the
      option string declares. */
  lemma ArgumentTaken(u: string, c: char, v: string, arg: string, operand: string)
    requires c != ':' && c !in u && (v == "" || v[0] != ':') && (operand == "" || operand[0] != '-')
    ensures c != '-' ==>
              Scan(["-" + [c], arg, operand], u + [c] + (":" + v)) == Parse([Item(c, Some(arg), None)], ["-" + [c], arg], [operand], Exhausted)
  {
    hide KindOf, Scan;
    if c != '-' {
      var optstring := u + [c] + (":" + v);
      KindAt(u, c, ":" + v);
      var words := [Options("", Separate(c, arg)), Operand(operand)];
      assert "-" + "" + [c] == "-" + [c] && ("-" + [c])[1] == c;
      assert u + [c] + (":" + v) == optstring && KindOf(optstring, c) == RequiredArg;
      assert words[1..] == [Operand(operand)] && words[1..][1..] == [];
      assert Line(words[1..], NoMore) == [operand];
      assert Meaning(optstring, words[1..], NoMore) == Parse([], [], [operand], Exhausted);
      assert Line(words, NoMore) == ["-" + [c], arg, operand];
      LineScanned(optstring, words, NoMore);
    }
  }

  /** So does -p in the option string of netcat. */
  lemma NetcatPort(port: string, host: string)
    requires host == "" || host[0] != '-'
    ensures Scan(["-p", port, host], "ade:g:G:hi:lLno:" + "p:" + "rs:tuvw:z")
         == Parse([Item('p', Some(port), None)], ["-p", port], [host], Exhausted)
  {
    hide Scan;
    assert "-" + ['p'] == "-p";
    JoinColon("ade:g:G:hi:lLno:", 'p', "rs:tuvw:z");
    ArgumentTaken("ade:g:G:hi:lLno:", 'p', "rs:tuvw:z", port, host);
  }

  lemma JoinColon(u: string, c: char, v: string)
    ensures u + [c, ':'] + v == u + [c] + (":" + v)
  {
  }
}
