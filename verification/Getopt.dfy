/** GNU getopt with argument permutation (short options, PERMUTE ordering).
    The imperative part follows `exchange`, `_getopt_initialize` and `_getopt_internal`;
    the reference is `Scan`, a left-to-right scan that never moves an argument. */
module Getopt {
  datatype Option<+T> = None | Some(value: T)

  /** One non-EOF return of getopt: the returned character, optarg, and the character stored
      in optopt when the return reports an error. */
  datatype Item = Item(ret: char, optarg: Option<string>, culprit: Option<char>)

  /** How an option character is declared in optstring. */
  datatype Kind = Unknown | Plain | OptionalArg | RequiredArg

  /** How a scan came to its end. */
  datatype End = Exhausted | Terminator | MissingArg

  /** The outcome of a whole scan: what getopt returns call after call, the arguments it
      consumed as options and option arguments, and the arguments it skipped. */
  datatype Parse = Parse(items: seq<Item>, taken: seq<string>, rest: seq<string>, end: End)

  // ---------------------------------------------------------------- reference scan

  /** An argument that is not an option element: it does not start with '-' or is just "-". */
  predicate IsNonOption(s: string) {
    |s| == 0 || s[0] != '-' || |s| == 1
  }

  function FirstIndex(s: string, c: char): (r: Option<nat>)
    ensures r.None? ==> c !in s
    ensures r.Some? ==> r.value < |s| && s[r.value] == c && c !in s[..r.value]
  {
    if s == [] then None
    else if s[0] == c then Some(0)
    else match FirstIndex(s[1..], c)
      case None => None
      case Some(i) => Some(i + 1)
  }

  function KindOf(optstring: string, c: char): Kind {
    match FirstIndex(optstring, c)
    case None => Unknown
    case Some(i) =>
      if c == ':' then Unknown
      else if i + 1 < |optstring| && optstring[i + 1] == ':' then
        if i + 2 < |optstring| && optstring[i + 2] == ':' then OptionalArg else RequiredArg
      else Plain
  }

  function MissingRet(optstring: string): char {
    if |optstring| > 0 && optstring[0] == ':' then ':' else '?'
  }

  function Found(item: Item, p: Parse): Parse {
    p.(items := [item] + p.items)
  }

  /** Scan the arguments left to right: skip non-options, stop at "--". */
  function Scan(args: seq<string>, optstring: string): Parse
    decreases |args|, 0
  {
    if args == [] then Parse([], [], [], Exhausted)
    else if args[0] == "--" then Parse([], [args[0]], args[1..], Terminator)
    else if IsNonOption(args[0]) then
      var p := Scan(args[1..], optstring);
      p.(rest := [args[0]] + p.rest)
    else
      var p := ScanCluster(args[0][1..], args[1..], optstring);
      p.(taken := [args[0]] + p.taken)
  }

  /** Scan the option characters left in one option element, then the arguments after it. */
  function ScanCluster(chars: string, args: seq<string>, optstring: string): Parse
    decreases |args|, |chars| + 1
  {
    if chars == "" then Scan(args, optstring)
    else
      var c, text := chars[0], chars[1..];
      match KindOf(optstring, c)
      case Unknown => Found(Item('?', None, Some(c)), ScanCluster(text, args, optstring))
      case Plain => Found(Item(c, None, None), ScanCluster(text, args, optstring))
      case OptionalArg =>
        Found(Item(c, if text == "" then None else Some(text), None), Scan(args, optstring))
      case RequiredArg =>
        if text != "" then Found(Item(c, Some(text), None), Scan(args, optstring))
        else if args == [] then Parse([Item(MissingRet(optstring), None, Some(c))], [], [], MissingArg)
        else
          var p := Scan(args[1..], optstring);
          Found(Item(c, Some(args[0]), None), p.(taken := [args[0]] + p.taken))
  }

  // ---------------------------------------------------------------- getopt's own state

  /** getopt's static variables. nextchar is "" both when the source's pointer is NULL and when it
      points at the terminator: the source treats the two alike. */
  datatype Cursor = Cursor(optind: nat, first: nat, last: nat, nextchar: string)

  ghost predicate ValidCursor(c: Cursor, argv: seq<string>) {
    && 1 <= c.first <= c.last <= c.optind <= |argv|
    && (c.nextchar != "" ==> c.optind < |argv|)
  }

  /** What the scan as a whole amounts to: what is still to be returned, together with the arguments
      already consumed and already skipped. Every call of getopt keeps `taken`, `rest` and `end`. */
  ghost function Whole(c: Cursor, argv: seq<string>, optstring: string): Parse
    requires ValidCursor(c, argv)
  {
    var skipped := argv[c.first..c.last];
    var done := argv[1..c.first] + argv[c.last..c.optind];
    if c.nextchar == "" then
      var p := Scan(argv[c.optind..], optstring);
      p.(taken := done + p.taken, rest := skipped + p.rest)
    else
      var p := ScanCluster(c.nextchar, argv[c.optind + 1..], optstring);
      p.(taken := done + [argv[c.optind]] + p.taken, rest := skipped + p.rest)
  }

  /** Nothing is left to return, and the consumed and the skipped arguments are where they belong. */
  ghost predicate Settled(taken: seq<string>, rest: seq<string>, whole: Parse) {
    Remaining([], taken, rest, whole)
  }

  /** argv with the adjacent blocks [lo,mid) and [mid,hi) exchanged. */
  function Exchanged(argv: seq<string>, lo: nat, mid: nat, hi: nat): seq<string>
    requires lo <= mid <= hi <= |argv|
  {
    argv[..lo] + argv[mid..hi] + argv[lo..mid] + argv[hi..]
  }

  lemma ExchangeKeepsWhole(c: Cursor, argv: seq<string>, optstring: string)
    requires ValidCursor(c, argv) && c.nextchar == ""
    ensures var argv' := Exchanged(argv, c.first, c.last, c.optind);
            var c' := c.(first := c.first + c.optind - c.last, last := c.optind);
            ValidCursor(c', argv') && Whole(c', argv', optstring) == Whole(c, argv, optstring)
  {
    var argv' := Exchanged(argv, c.first, c.last, c.optind);
    var first' := c.first + c.optind - c.last;
    assert argv'[1..first'] + argv'[c.optind..c.optind] == argv[1..c.first] + argv[c.last..c.optind];
    assert argv'[first'..c.optind] == argv[c.first..c.last];
    assert argv'[c.optind..] == argv[c.optind..];
  }

  lemma AdoptKeepsWhole(c: Cursor, argv: seq<string>, optstring: string)
    requires ValidCursor(c, argv) && c.nextchar == "" && c.first == c.last
    ensures var c' := c.(first := c.optind, last := c.optind);
            ValidCursor(c', argv) && Whole(c', argv, optstring) == Whole(c, argv, optstring)
  {
    assert argv[1..c.first] + argv[c.last..c.optind] == argv[1..c.optind] + argv[c.optind..c.optind];
  }

  lemma SkipKeepsWhole(c: Cursor, argv: seq<string>, optstring: string)
    requires ValidCursor(c, argv) && c.nextchar == "" && c.last == c.optind < |argv|
    requires IsNonOption(argv[c.optind])
    ensures var c' := c.(last := c.last + 1, optind := c.optind + 1);
            ValidCursor(c', argv) && Whole(c', argv, optstring) == Whole(c, argv, optstring)
  {
    assert argv[c.first..c.last + 1] == argv[c.first..c.last] + [argv[c.optind]];
    assert argv[c.optind..][1..] == argv[c.optind + 1..];
    assert argv[c.last + 1..c.optind + 1] == argv[c.last..c.optind] == [];
    var p := Scan(argv[c.optind + 1..], optstring);
    assert argv[c.first..c.last] + ([argv[c.optind]] + p.rest) == argv[c.first..c.last + 1] + p.rest;
  }

  lemma SettledAtEnd(c: Cursor, argv: seq<string>, optstring: string)
    requires ValidCursor(c, argv) && c.nextchar == "" && c.last == c.optind == |argv|
    ensures Settled(argv[1..c.first], argv[c.first..], Whole(c, argv, optstring))
  {
    assert argv[1..c.first] + argv[c.last..c.optind] + [] == argv[1..c.first];
    assert argv[c.first..c.last] + [] == argv[c.first..];
  }

  lemma SettledAtTerminator(c: Cursor, argv: seq<string>, optstring: string)
    requires ValidCursor(c, argv) && c.nextchar == "" && c.last == c.optind < |argv| && argv[c.optind] == "--"
    ensures var argv' := Exchanged(argv, c.first, c.last, c.optind + 1);
            Settled(argv'[1..c.first + 1], argv'[c.first + 1..], Whole(c, argv, optstring))
  {
    var whole := Whole(c, argv, optstring);
    var argv' := Exchanged(argv, c.first, c.last, c.optind + 1);
    var skipped, after := argv[c.first..c.last], argv[c.optind + 1..];
    assert argv' == argv[..c.first] + ["--"] + skipped + after by {
      assert argv[c.last..c.optind + 1] == ["--"];
    }
    assert argv'[1..c.first + 1] == argv[1..c.first] + ["--"];
    assert argv'[c.first + 1..] == skipped + after;
    assert argv[c.optind..][1..] == after;
    assert argv[1..c.first] + argv[c.last..c.optind] + ["--"] == argv[1..c.first] + ["--"];
    assert Scan(argv[c.optind..], optstring) == Parse([], ["--"], after, Terminator);
  }

  lemma ExchangedNothing(argv: seq<string>, lo: nat, hi: nat)
    requires lo <= hi <= |argv|
    ensures Exchanged(argv, lo, lo, hi) == argv
  {
  }

  lemma ElementKeepsWhole(c: Cursor, argv: seq<string>, optstring: string)
    requires ValidCursor(c, argv) && c.nextchar == "" && c.optind < |argv|
    requires !IsNonOption(argv[c.optind]) && argv[c.optind] != "--"
    ensures var c' := c.(nextchar := argv[c.optind][1..]);
            ValidCursor(c', argv) && Whole(c', argv, optstring) == Whole(c, argv, optstring)
  {
    assert argv[c.optind..][1..] == argv[c.optind + 1..];
    var done := argv[1..c.first] + argv[c.last..c.optind];
    var p := ScanCluster(argv[c.optind][1..], argv[c.optind + 1..], optstring);
    assert done + ([argv[c.optind]] + p.taken) == done + [argv[c.optind]] + p.taken;
  }

  /** One call of getopt turned `before` into `after` by returning `item`. */
  ghost predicate Returned(item: Item, before: Parse, after: Parse) {
    && before.items == [item] + after.items
    && before.taken == after.taken && before.rest == after.rest
  }

  /** optopt after a call: the character at fault if there is one, else what it was. */
  ghost predicate Reported(culprit: Option<char>, optopt: char, optopt': char) {
    optopt' == if culprit.Some? then culprit.value else optopt
  }

  /** The characters c.nextchar[1..] are left after an option character without an argument. */
  lemma CharReturned(c: Cursor, argv: seq<string>, optstring: string)
    requires ValidCursor(c, argv) && c.nextchar != "" && KindOf(optstring, c.nextchar[0]) in {Unknown, Plain}
    ensures var ch, text := c.nextchar[0], c.nextchar[1..];
            var c' := c.(nextchar := text, optind := if text == "" then c.optind + 1 else c.optind);
            var item := if KindOf(optstring, ch) == Plain then Item(ch, None, None) else Item('?', None, Some(ch));
            ValidCursor(c', argv) && Returned(item, Whole(c, argv, optstring), Whole(c', argv, optstring))
  {
    var text, args := c.nextchar[1..], argv[c.optind + 1..];
    assert text == "" ==> ScanCluster(text, args, optstring) == Scan(args, optstring);
    assert argv[1..c.first] + argv[c.last..c.optind + 1] == argv[1..c.first] + argv[c.last..c.optind] + [argv[c.optind]];
  }

  /** The option element ends with an option that takes the rest of it, or nothing, as argument. */
  lemma ElementReturned(c: Cursor, argv: seq<string>, optstring: string)
    requires ValidCursor(c, argv) && c.nextchar != ""
    requires var kind := KindOf(optstring, c.nextchar[0]);
             kind == OptionalArg || (kind == RequiredArg && c.nextchar[1..] != "")
    ensures var text, c' := c.nextchar[1..], c.(nextchar := "", optind := c.optind + 1);
            var item := Item(c.nextchar[0], if text == "" then None else Some(text), None);
            ValidCursor(c', argv) && Returned(item, Whole(c, argv, optstring), Whole(c', argv, optstring))
  {
    assert argv[1..c.first] + argv[c.last..c.optind + 1] == argv[1..c.first] + argv[c.last..c.optind] + [argv[c.optind]];
  }

  /** The option element ends with an option whose argument is the next element of argv. */
  lemma ArgumentReturned(c: Cursor, argv: seq<string>, optstring: string)
    requires ValidCursor(c, argv) && |c.nextchar| == 1 && KindOf(optstring, c.nextchar[0]) == RequiredArg
    requires c.optind + 1 < |argv|
    ensures var c' := c.(nextchar := "", optind := c.optind + 2);
            var item := Item(c.nextchar[0], Some(argv[c.optind + 1]), None);
            ValidCursor(c', argv) && Returned(item, Whole(c, argv, optstring), Whole(c', argv, optstring))
  {
    var done, arg := argv[1..c.first] + argv[c.last..c.optind], argv[c.optind + 1];
    assert argv[1..c.first] + argv[c.last..c.optind + 2] == done + [argv[c.optind]] + [arg];
    assert argv[c.optind + 1..][1..] == argv[c.optind + 2..];
    var p := Scan(argv[c.optind + 2..], optstring);
    assert done + [argv[c.optind]] + ([arg] + p.taken) == done + [argv[c.optind]] + [arg] + p.taken;
  }

  /** The option element ends with an option whose argument is missing. */
  lemma MissingReturned(c: Cursor, argv: seq<string>, optstring: string)
    requires ValidCursor(c, argv) && |c.nextchar| == 1 && KindOf(optstring, c.nextchar[0]) == RequiredArg
    requires c.optind + 1 == |argv|
    ensures var c' := c.(nextchar := "", optind := c.optind + 1);
            var item := Item(MissingRet(optstring), None, Some(c.nextchar[0]));
            ValidCursor(c', argv) && Returned(item, Whole(c, argv, optstring), Whole(c', argv, optstring))
  {
    assert argv[1..c.first] + argv[c.last..c.optind + 1] == argv[1..c.first] + argv[c.last..c.optind] + [argv[c.optind]];
  }

  /** my_index: the first place of chr in str. */
  method MyIndex(str: string, chr: char) returns (r: Option<nat>)
    ensures r == FirstIndex(str, chr)
  {
    var i := 0;
    while i < |str|
      invariant i <= |str|
      invariant FirstIndex(str, chr) == match FirstIndex(str[i..], chr) case None => None case Some(k) => Some(i + k)
    {
      if str[i] == chr {
        return Some(i);
      }
      i := i + 1;
    }
    return None;
  }

  ghost predicate Remaining(items: seq<Item>, taken: seq<string>, rest: seq<string>, whole: Parse) {
    whole.items == items && whole.taken == taken && whole.rest == rest
  }

  lemma SettledArgv(argv: seq<string>, optind: nat, taken: seq<string>, rest: seq<string>)
    requires 1 <= optind <= |argv| && taken == argv[1..optind] && rest == argv[optind..]
    ensures argv == [argv[0]] + taken + rest && optind == 1 + |taken|
  {
  }

  lemma FreshWhole(argv: seq<string>, optstring: string)
    requires |argv| >= 1
    ensures Whole(Cursor(1, 1, 1, ""), argv, optstring) == Scan(argv[1..], optstring)
  {
    assert argv[1..1] + argv[1..1] == [];
  }

  lemma Regroup<T>(a: seq<T>, b: seq<T>, c: seq<T>, d: seq<T>, e: seq<T>)
    ensures a + b + (c + d) + e == a + b + c + d + e == a + (b + c) + d + e
    ensures a + b + c + d + e == a + b + c + (d + e) == (a + b) + c + d + e
  {
  }

  /** The loop of exchange on argv == a + b + c + d, where first, last and end are the bounds of the
      blocks b and c. Swapping the shorter block with the far end of the longer one puts the shorter
      block in place; what is left of the longer one is again two blocks to exchange. */
  method SwapBlocks(argv: array<string>, first: nat, last: nat, end: nat,
                    ghost a: seq<string>, ghost b: seq<string>, ghost c: seq<string>, ghost d: seq<string>)
    requires first <= last <= end <= argv.Length
    requires argv[..] == a + b + c + d && |a| == first && |b| == last - first && |c| == end - last
    modifies argv
    ensures argv[..] == a + c + b + d
  {
    var bottom, middle, top := first, last, end;
    ghost var before, lower, upper, after := a, b, c, d;
    while top > middle && middle > bottom
      invariant bottom <= middle <= top
      invariant |before| == bottom && |lower| == middle - bottom && |upper| == top - middle
      invariant argv[..] == before + lower + upper + after
      invariant before + upper + lower + after == a + c + b + d
      decreases top - bottom
    {
      if top - middle > middle - bottom {
        var len := middle - bottom;
        ghost var left, moved := upper[..|upper| - len], upper[|upper| - len..];
        assert upper == left + moved;
        Regroup(before, lower, left, moved, after);
        SwapRuns(argv, bottom, top - len, len, before, lower, left, moved, after);
        Regroup(before, moved, left, lower, after);
        Regroup(before, left, moved, lower, after);
        lower, upper, after := moved, left, lower + after;
        top := top - len;
      } else {
        var len := top - middle;
        ghost var moved, left := lower[..len], lower[len..];
        assert lower == moved + left;
        Regroup(before, moved, left, upper, after);
        SwapRuns(argv, bottom, middle, len, before, moved, left, upper, after);
        Regroup(before, upper, left, moved, after);
        Regroup(before, upper, moved, left, after);
        before, lower, upper := before + upper, left, moved;
        bottom := bottom + len;
      }
    }
    assert before + upper + lower + after == before + lower + upper + after;
  }

  /** The inner loops of exchange, on argv == a + b + c + d + e: swap the runs b and d of length len,
      which start at lo and hi. */
  method SwapRuns(argv: array<string>, lo: nat, hi: nat, len: nat,
                  ghost a: seq<string>, ghost b: seq<string>, ghost c: seq<string>, ghost d: seq<string>, ghost e: seq<string>)
    requires argv[..] == a + b + c + d + e
    requires |a| == lo && |b| == len == |d| && |c| == hi - lo - len
    modifies argv
    ensures argv[..] == a + d + c + b + e
  {
    ghost var was := argv[..];
    for i := 0 to len
      invariant forall k :: 0 <= k < argv.Length ==> argv[k] == SwappedAt(was, lo, hi, i, k)
    {
      argv[lo + i], argv[hi + i] := argv[hi + i], argv[lo + i];
    }
    RunsSwapped(was, argv[..], lo, hi, len, a, b, c, d, e);
  }

  /** What stands at k when i elements of the runs from lo and from hi on have changed places. */
  function SwappedAt(was: seq<string>, lo: nat, hi: nat, i: nat, k: nat): string
    requires lo + i <= hi && hi + i <= |was| && k < |was|
  {
    if lo <= k < lo + i then was[k - lo + hi] else if hi <= k < hi + i then was[k - hi + lo] else was[k]
  }

  lemma RunsSwapped(was: seq<string>, now: seq<string>, lo: nat, hi: nat, len: nat,
                    a: seq<string>, b: seq<string>, c: seq<string>, d: seq<string>, e: seq<string>)
    requires was == a + b + c + d + e && |now| == |was|
    requires |a| == lo && |b| == len == |d| && |c| == hi - lo - len
    requires forall k :: 0 <= k < |was| ==> now[k] == SwappedAt(was, lo, hi, len, k)
    ensures now == a + d + c + b + e
  {
    var goal := a + d + c + b + e;
    forall k | 0 <= k < |was| ensures now[k] == goal[k] {
    }
  }

  class Scanner {
    var optind: nat
    var firstNonopt: nat
    var lastNonopt: nat
    var nextchar: string
    var optarg: Option<string>
    var optopt: char

    constructor ()
      ensures optind == 0
    {
      optind, firstNonopt, lastNonopt := 0, 0, 0;
      nextchar, optarg, optopt := "", None, '?';
    }

    ghost function Now(): Cursor
      reads this
    {
      // a scan that has not started is about to start at argv[1]
      if optind == 0 then Cursor(1, 1, 1, "") else Cursor(optind, firstNonopt, lastNonopt, nextchar)
    }

    /** Exchange the skipped non-options [firstNonopt,lastNonopt) with the options
        [lastNonopt,optind) processed after them. */
    method Exchange(argv: array<string>)
      requires firstNonopt <= lastNonopt <= optind <= argv.Length
      modifies argv, this`firstNonopt, this`lastNonopt
      ensures argv[..] == Exchanged(old(argv[..]), old(firstNonopt), old(lastNonopt), optind)
      ensures firstNonopt == old(firstNonopt) + (optind - old(lastNonopt))
      ensures lastNonopt == optind
    {
      ghost var was := argv[..];
      ghost var lower, upper := was[firstNonopt..lastNonopt], was[lastNonopt..optind];
      assert was == was[..firstNonopt] + lower + upper + was[optind..];
      SwapBlocks(argv, firstNonopt, lastNonopt, optind, was[..firstNonopt], lower, upper, was[optind..]);
      firstNonopt := firstNonopt + (optind - lastNonopt);
      lastNonopt := optind;
    }

    /** _getopt_initialize, for an optstring without an ordering prefix. */
    method Initialize()
      modifies this
      ensures (optind, firstNonopt, lastNonopt, nextchar) == (1, 1, 1, "")
      ensures optarg == old(optarg) && optopt == old(optopt)
    {
      firstNonopt, lastNonopt, optind := 1, 1, 1;
      nextchar := "";
    }

    /** Bring the options processed since the last non-option in front of the skipped non-options. */
    method SettleOptions(argv: array<string>, ghost optstring: string)
      requires optind != 0 && nextchar == "" && ValidCursor(Now(), argv[..])
      modifies argv, this`firstNonopt, this`lastNonopt
      ensures ValidCursor(Now(), argv[..]) && lastNonopt == optind && argv[0] == old(argv[0])
      ensures Whole(Now(), argv[..], optstring) == old(Whole(Now(), argv[..], optstring))
    {
      hide Whole;
      ghost var c, was := Now(), argv[..];
      if firstNonopt != lastNonopt && lastNonopt != optind {
        ExchangeKeepsWhole(c, was, optstring);
        Exchange(argv);
      } else if lastNonopt != optind {
        AdoptKeepsWhole(c, was, optstring);
        firstNonopt := optind;
      }
      lastNonopt := optind;
    }

    /** Skip the non-options at optind and add them to the skipped ones. */
    method SkipNonOptions(argv: array<string>, ghost optstring: string)
      requires optind != 0 && nextchar == "" && ValidCursor(Now(), argv[..]) && lastNonopt == optind
      modifies this`optind, this`lastNonopt
      ensures ValidCursor(Now(), argv[..]) && optind != 0 && lastNonopt == optind
      ensures optind < argv.Length ==> !IsNonOption(argv[optind])
      ensures Whole(Now(), argv[..], optstring) == old(Whole(Now(), argv[..], optstring))
    {
      hide Whole;
      ghost var args, whole := argv[..], Whole(Now(), argv[..], optstring);
      while optind < argv.Length && IsNonOption(argv[optind])
        invariant 1 <= firstNonopt <= optind <= argv.Length
        invariant Whole(Cursor(optind, firstNonopt, optind, ""), args, optstring) == whole
        modifies this`optind
      {
        SkipKeepsWhole(Cursor(optind, firstNonopt, optind, ""), args, optstring);
        optind := optind + 1;
      }
      lastNonopt := optind;
    }

    /** Advance to the next option element, permuting the arguments passed over; eof when there
        is none, with optind left at the first non-option. */
    method NextElement(argv: array<string>, ghost optstring: string) returns (eof: bool)
      requires optind != 0 && nextchar == "" && ValidCursor(Now(), argv[..])
      modifies argv, this`optind, this`firstNonopt, this`lastNonopt, this`nextchar
      ensures argv[0] == old(argv[0])
      ensures !eof ==> 1 <= optind && nextchar != "" && ValidCursor(Now(), argv[..])
                       && Whole(Now(), argv[..], optstring) == old(Whole(Now(), argv[..], optstring))
      ensures eof ==> 1 <= optind <= argv.Length
                      && Settled(argv[1..optind], argv[optind..], old(Whole(Now(), argv[..], optstring)))
    {
      hide Whole, Settled;
      SettleOptions(argv, optstring);
      SkipNonOptions(argv, optstring);
      if optind != argv.Length && argv[optind] == "--" {
        TakeTerminator(argv, optstring);
      } else if optind == argv.Length {
        SettledAtEnd(Now(), argv[..], optstring);
      } else {
        ElementKeepsWhole(Now(), argv[..], optstring);
      }
      if optind == argv.Length {
        if firstNonopt != lastNonopt {
          optind := firstNonopt;
        }
        return true;
      }
      nextchar := argv[optind][1..];
      return false;
    }

    /** The element "--": everything after it is a non-option. */
    method TakeTerminator(argv: array<string>, ghost optstring: string)
      requires ValidCursor(Now(), argv[..]) && nextchar == "" && lastNonopt == optind < argv.Length && argv[optind] == "--"
      requires optind != 0
      modifies argv, this`optind, this`firstNonopt, this`lastNonopt
      ensures argv[0] == old(argv[0]) && optind == lastNonopt == argv.Length
      ensures 1 <= firstNonopt <= argv.Length
      ensures Settled(argv[1..firstNonopt], argv[firstNonopt..], old(Whole(Now(), argv[..], optstring)))
    {
      hide Whole, Settled;
      ghost var c, was := Now(), argv[..];
      optind := optind + 1;
      if firstNonopt != lastNonopt && lastNonopt != optind {
        Exchange(argv);
      } else if firstNonopt == lastNonopt {
        firstNonopt := optind;
      }
      lastNonopt := argv.Length;
      optind := argv.Length;
      SettledAtTerminator(c, was, optstring);
      ExchangedNothing(was, c.first, c.optind + 1);
    }

    /** Decode the next option character of the current option element. */
    method NextShortOption(argv: array<string>, ghost args: seq<string>, optstring: string) returns (c: char)
      requires args == argv[..]
      requires optind != 0 && nextchar != "" && optarg == None && ValidCursor(Now(), args)
      modifies this`optind, this`nextchar, this`optarg, this`optopt
      ensures ValidCursor(Now(), args) && optind != 0
      ensures exists culprit :: Reported(culprit, old(optopt), optopt) &&
                Returned(Item(c, optarg, culprit), old(Whole(Now(), args, optstring)), Whole(Now(), args, optstring))
    {
      hide Whole;
      ghost var cursor := Now();
      c := nextchar[0];
      nextchar := nextchar[1..];
      var temp := MyIndex(optstring, c);
      if nextchar == "" {
        optind := optind + 1;
      }
      ghost var culprit := None;
      if temp == None || c == ':' {
        CharReturned(cursor, args, optstring);
        culprit := Some(c);
        optopt := c;
        c := '?';
      } else if temp.value + 1 < |optstring| && optstring[temp.value + 1] == ':' {
        if temp.value + 2 < |optstring| && optstring[temp.value + 2] == ':' {
          ElementReturned(cursor, args, optstring);
          if nextchar != "" {
            optarg := Some(nextchar);
            optind := optind + 1;
          } else {
            optarg := None;
          }
        } else if nextchar != "" {
          ElementReturned(cursor, args, optstring);
          optarg := Some(nextchar);
          optind := optind + 1;
        } else if optind == argv.Length {
          MissingReturned(cursor, args, optstring);
          culprit := Some(c);
          optopt := c;
          c := if optstring[0] == ':' then ':' else '?';
        } else {
          ArgumentReturned(cursor, args, optstring);
          optarg := Some(argv[optind]);
          optind := optind + 1;
        }
        nextchar := "";
      } else {
        CharReturned(cursor, args, optstring);
      }
      assert Reported(culprit, old(optopt), optopt);
    }

    /** _getopt_internal for short options: the next option of argv, or None for EOF. Each call
        returns the next item of the left-to-right scan of the original arguments. */
    method Next(argv: array<string>, optstring: string) returns (r: Option<char>)
      requires argv.Length >= 1 && ValidCursor(Now(), argv[..])
      requires optstring == "" || (optstring[0] != '-' && optstring[0] != '+')
      modifies argv, this
      ensures argv[0] == old(argv[0]) && optind >= 1
      ensures r.Some? ==>
                && ValidCursor(Now(), argv[..])
                && (exists culprit :: Reported(culprit, old(optopt), optopt) &&
                      Returned(Item(r.value, optarg, culprit), old(Whole(Now(), argv[..], optstring)), Whole(Now(), argv[..], optstring)))
      ensures r.None? ==>
                && optarg == None && optopt == old(optopt) && optind <= argv.Length
                && Settled(argv[1..optind], argv[optind..], old(Whole(Now(), argv[..], optstring)))
    {
      optarg := None;
      if optind == 0 {
        Initialize();
      }
      if nextchar == "" {
        var eof := NextElement(argv, optstring);
        if eof {
          return None;
        }
      }
      var c := NextShortOption(argv, argv[..], optstring);
      return Some(c);
    }

    /** The option loop of a program that has not called getopt yet: call it until EOF. */
    method ParseAll(argv: array<string>, optstring: string) returns (seen: seq<(char, Option<string>)>)
      requires argv.Length >= 1 && optind == 0
      requires optstring == "" || (optstring[0] != '-' && optstring[0] != '+')
      modifies argv, this
      ensures var p := Scan(old(argv[1..]), optstring);
              && |seen| == |p.items|
              && (forall k :: 0 <= k < |seen| ==> seen[k] == (p.items[k].ret, p.items[k].optarg))
              && argv[..] == [old(argv[0])] + p.taken + p.rest
              && optind == 1 + |p.taken|
    {
      ghost var p, name := Scan(argv[1..], optstring), argv[0];
      FreshWhole(argv[..], optstring);
      hide Whole, Scan, ValidCursor, KindOf;
      ghost var left := p.items;
      seen := [];
      while true
        invariant argv[0] == name && ValidCursor(Now(), argv[..])
        invariant |seen| + |left| == |p.items| && left == p.items[|seen|..]
        invariant forall k :: 0 <= k < |seen| ==> seen[k] == (p.items[k].ret, p.items[k].optarg)
        invariant Remaining(left, p.taken, p.rest, Whole(Now(), argv[..], optstring))
        decreases |left|
      {
        var c := Next(argv, optstring);
        if c == None {
          break;
        }
        seen := seen + [(c.value, optarg)];
        left := left[1..];
      }
      SettledArgv(argv[..], optind, p.taken, p.rest);
    }
  }

  // ---------------------------------------------------------------- what the scan means

  /** s is an interleaving of a and b: both keep their order, and nothing is lost or added. */
  ghost predicate Interleaves(a: seq<string>, b: seq<string>, s: seq<string>)
    decreases |s|
  {
    if s == [] then a == [] && b == []
    else
      || (a != [] && a[0] == s[0] && Interleaves(a[1..], b, s[1..]))
      || (b != [] && b[0] == s[0] && Interleaves(a, b[1..], s[1..]))
  }

  lemma InterleavesRight(a: seq<string>, b: seq<string>)
    requires a == []
    ensures Interleaves(a, b, b)
    decreases |b|
  {
    if b != [] {
      InterleavesRight(a, b[1..]);
    }
  }

  /** The scan splits the arguments into consumed and skipped ones, both in their original order. */
  lemma {:induction false} ScanInterleaves(args: seq<string>, optstring: string)
    ensures var p := Scan(args, optstring); Interleaves(p.taken, p.rest, args)
    decreases |args|, 0
  {
    if args != [] {
      if args[0] == "--" {
        InterleavesRight([], args[1..]);
      } else if IsNonOption(args[0]) {
        ScanInterleaves(args[1..], optstring);
        var q := Scan(args[1..], optstring);
        assert ([args[0]] + q.rest)[1..] == q.rest;
      } else {
        ClusterInterleaves(args[0][1..], args[1..], optstring);
        var q := ScanCluster(args[0][1..], args[1..], optstring);
        assert ([args[0]] + q.taken)[1..] == q.taken;
      }
    }
  }

  lemma {:induction false} ClusterInterleaves(chars: string, args: seq<string>, optstring: string)
    ensures var p := ScanCluster(chars, args, optstring); Interleaves(p.taken, p.rest, args)
    decreases |args|, |chars| + 1
  {
    if chars == "" {
      ScanInterleaves(args, optstring);
    } else {
      match KindOf(optstring, chars[0]) {
        case Unknown => ClusterInterleaves(chars[1..], args, optstring);
        case Plain => ClusterInterleaves(chars[1..], args, optstring);
        case OptionalArg => ScanInterleaves(args, optstring);
        case RequiredArg =>
          if chars[1..] != "" {
            ScanInterleaves(args, optstring);
          } else if args != [] {
            ScanInterleaves(args[1..], optstring);
            var q := Scan(args[1..], optstring);
            assert ([args[0]] + q.taken)[1..] == q.taken;
          }
      }
    }
  }

  ghost predicate AllNonOptions(args: seq<string>) {
    forall k :: 0 <= k < |args| ==> IsNonOption(args[k])
  }

  /** What is skipped: only non-options, unless "--" ended the scan; then whatever follows it comes last. */
  lemma {:induction false} RestOfScan(args: seq<string>, optstring: string) returns (n: nat, k: nat)
    ensures var p := Scan(args, optstring);
            && n <= |p.rest| && AllNonOptions(p.rest[..n])
            && (p.end != Terminator ==> n == |p.rest|)
            && (p.end == Terminator ==> k < |args| && args[k] == "--" && p.rest[n..] == args[k + 1..])
    decreases |args|, 0
  {
    n, k := 0, 0;
    if args != [] && args[0] != "--" {
      if IsNonOption(args[0]) {
        n, k := RestOfScan(args[1..], optstring);
        var q := Scan(args[1..], optstring);
        assert ([args[0]] + q.rest)[..n + 1] == [args[0]] + q.rest[..n];
        n, k := n + 1, k + 1;
      } else {
        n, k := RestOfCluster(args[0][1..], args[1..], optstring);
        k := k + 1;
      }
    }
  }

  lemma {:induction false} RestOfCluster(chars: string, args: seq<string>, optstring: string) returns (n: nat, k: nat)
    ensures var p := ScanCluster(chars, args, optstring);
            && n <= |p.rest| && AllNonOptions(p.rest[..n])
            && (p.end != Terminator ==> n == |p.rest|)
            && (p.end == Terminator ==> k < |args| && args[k] == "--" && p.rest[n..] == args[k + 1..])
    decreases |args|, |chars| + 1
  {
    n, k := 0, 0;
    if chars == "" {
      n, k := RestOfScan(args, optstring);
    } else {
      match KindOf(optstring, chars[0]) {
        case Unknown => n, k := RestOfCluster(chars[1..], args, optstring);
        case Plain => n, k := RestOfCluster(chars[1..], args, optstring);
        case OptionalArg => n, k := RestOfScan(args, optstring);
        case RequiredArg =>
          if chars[1..] != "" {
            n, k := RestOfScan(args, optstring);
          } else if args != [] {
            n, k := RestOfScan(args[1..], optstring);
            k := k + 1;
          }
      }
    }
  }

  lemma {:induction false} ScanNonOptions(args: seq<string>, optstring: string)
    requires AllNonOptions(args)
    ensures Scan(args, optstring) == Parse([], [], args, Exhausted)
  {
    if args != [] {
      ScanNonOptions(args[1..], optstring);
    }
  }

  /** again is what the scan gives when the arguments p consumed are followed by `more`. */
  ghost predicate ContinuesWith(again: Parse, p: Parse, more: seq<string>, optstring: string) {
    match p.end
    case Terminator => again == Parse(p.items, p.taken, more, Terminator)
    case Exhausted =>
      var q := Scan(more, optstring);
      again == Parse(p.items + q.items, p.taken + q.taken, q.rest, q.end)
    case MissingArg =>
      if more == [] then again == p.(rest := [])
      else
        // the option that lacked its argument now takes the first of `more`
        && 0 < |p.items| <= |again.items|
        && p.items[|p.items| - 1].optarg == None
        && again.items[|p.items| - 1].optarg == Some(more[0])
  }

  lemma FoundContinues(item: Item, again: Parse, p: Parse, more: seq<string>, optstring: string)
    requires ContinuesWith(again, p, more, optstring)
    ensures ContinuesWith(Found(item, again), Found(item, p), more, optstring)
  {
    hide Scan, ScanCluster;
    if p.end == Exhausted {
      assert [item] + (p.items + Scan(more, optstring).items) == [item] + p.items + Scan(more, optstring).items;
    }
  }

  lemma TakenContinues(arg: string, again: Parse, p: Parse, more: seq<string>, optstring: string)
    requires ContinuesWith(again, p, more, optstring)
    ensures ContinuesWith(again.(taken := [arg] + again.taken), p.(taken := [arg] + p.taken), more, optstring)
    ensures ([arg] + p.taken + more)[0] == arg && ([arg] + p.taken + more)[1..] == p.taken + more
  {
    hide Scan, ScanCluster;
    if p.end == Exhausted {
      assert [arg] + (p.taken + Scan(more, optstring).taken) == [arg] + p.taken + Scan(more, optstring).taken;
    }
  }

  lemma {:induction false} ScanContinued(args: seq<string>, more: seq<string>, optstring: string)
    ensures var p := Scan(args, optstring); ContinuesWith(Scan(p.taken + more, optstring), p, more, optstring)
    decreases |args|, 0, 0
  {
    if args == [] {
      assert [] + more == more;
    } else if args[0] == "--" {
      assert ([args[0]] + more)[1..] == more;
    } else if IsNonOption(args[0]) {
      ScanContinued(args[1..], more, optstring);
    } else {
      var q := ScanCluster(args[0][1..], args[1..], optstring);
      ClusterContinued(args[0][1..], args[1..], more, optstring);
      TakenContinues(args[0], ScanCluster(args[0][1..], q.taken + more, optstring), q, more, optstring);
    }
  }

  lemma {:induction false} ClusterContinued(chars: string, args: seq<string>, more: seq<string>, optstring: string)
    ensures var p := ScanCluster(chars, args, optstring);
            ContinuesWith(ScanCluster(chars, p.taken + more, optstring), p, more, optstring)
    decreases |args|, |chars| + 1, 0
  {
    if chars == "" {
      ScanContinued(args, more, optstring);
    } else {
      var c, text := chars[0], chars[1..];
      match KindOf(optstring, c) {
        case Unknown => CharContinued(Item('?', None, Some(c)), text, args, more, optstring);
        case Plain => CharContinued(Item(c, None, None), text, args, more, optstring);
        case OptionalArg =>
          ElementContinued(Item(c, if text == "" then None else Some(text), None), args, more, optstring);
        case RequiredArg =>
          if text != "" {
            ElementContinued(Item(c, Some(text), None), args, more, optstring);
          } else if args == [] {
            assert [] + more == more;
          } else {
            var q := Scan(args[1..], optstring);
            ScanContinued(args[1..], more, optstring);
            TakenContinues(args[0], Scan(q.taken + more, optstring), q, more, optstring);
            var q' := q.(taken := [args[0]] + q.taken);
            var again := Scan(q.taken + more, optstring);
            FoundContinues(Item(c, Some(args[0]), None), again.(taken := [args[0]] + again.taken), q', more, optstring);
          }
      }
    }
  }

  lemma {:induction false} CharContinued(item: Item, text: string, args: seq<string>, more: seq<string>, optstring: string)
    ensures var p := ScanCluster(text, args, optstring);
            ContinuesWith(Found(item, ScanCluster(text, p.taken + more, optstring)), Found(item, p), more, optstring)
    decreases |args|, |text| + 1, 1
  {
    ClusterContinued(text, args, more, optstring);
    var p := ScanCluster(text, args, optstring);
    FoundContinues(item, ScanCluster(text, p.taken + more, optstring), p, more, optstring);
  }

  lemma {:induction false} ElementContinued(item: Item, args: seq<string>, more: seq<string>, optstring: string)
    ensures var p := Scan(args, optstring);
            ContinuesWith(Found(item, Scan(p.taken + more, optstring)), Found(item, p), more, optstring)
    decreases |args|, 0, 1
  {
    ScanContinued(args, more, optstring);
    var p := Scan(args, optstring);
    FoundContinues(item, Scan(p.taken + more, optstring), p, more, optstring);
  }

  /** The permuted argument vector means what the original one meant, unless the last option lacks its
      argument while arguments were skipped: permuted, that option would take the first of them. */
  lemma PermutedMeansTheSame(args: seq<string>, optstring: string)
    ensures var p := Scan(args, optstring);
            var again := Scan(p.taken + p.rest, optstring);
            && (again.items == p.items <==> p.end != MissingArg || p.rest == [])
            && (again.items == p.items ==> again.taken == p.taken && again.rest == p.rest)
  {
    var p := Scan(args, optstring);
    ScanContinued(args, p.rest, optstring);
    hide Scan, ScanCluster;
    if p.end != Terminator {
      var n, k := RestOfScan(args, optstring);
      ScanNonOptions(p.rest, optstring);
    }
  }

  /** For instance "x -a", where -a needs an argument: it lacks one, but permuted to "-a x" it takes the x. */
  lemma MissingArgumentFilled()
    ensures Scan(["x", "-a"], "a:") == Parse([Item('?', None, Some('a'))], ["-a"], ["x"], MissingArg)
    ensures Scan(["-a", "x"], "a:") == Parse([Item('a', Some("x"), None)], ["-a", "x"], [], Exhausted)
  {
    assert "a:"[1] == ':' && KindOf("a:", 'a') == RequiredArg;
    assert "-a"[1..] == "a" && "a"[1..] == "" && !IsNonOption("-a") && "-a" != "--";
    hide KindOf;
    assert ["x", "-a"][1..] == ["-a"] && ["-a"][1..] == [] && ["-a", "x"][1..] == ["x"] && ["x"][1..] == [];
    assert ScanCluster("a", [], "a:") == Parse([Item('?', None, Some('a'))], [], [], MissingArg);
    assert Scan(["-a"], "a:") == Parse([Item('?', None, Some('a'))], ["-a"], [], MissingArg);
    assert Scan([], "a:") == Parse([], [], [], Exhausted);
    assert ScanCluster("a", ["x"], "a:") == Parse([Item('a', Some("x"), None)], ["x"], [], Exhausted);
  }
}
