// What a command line means to the option scanner, said of its strings alone: how the
// options on it are spelled, and what the calls then return.

module CommandLines {
  import opened Common
  import opened LongOptions
  import opened Getopt

  // ----- option characters

  // The option string has c before the mark: nothing for an option without an argument,
  // one colon for a required argument, two for an optional one.
  predicate DeclaredAt(optstring: string, pre: string, c: char, mark: string, post: string) {
    && optstring == pre + [c] + mark + post && c !in pre && c != ':'
    && mark in {"", ":", "::"} && (|mark| < 2 ==> post == "" || post[0] != ':')
  }

  ghost predicate Declares(optstring: string, c: char, mark: string) {
    exists pre, post :: DeclaredAt(optstring, pre, c, mark, post)
  }

  // A character that takes no argument, whether it is an option or not.
  ghost predicate Simple(optstring: string, c: char) {
    c !in optstring || c == ':' || Declares(optstring, c, "")
  }

  lemma IndexIs(s: string, c: char, pre: string, post: string)
    requires s == pre + [c] + post && c !in pre
    ensures Index(s, c) == |pre|
  {
    assert s[|pre|] == c && forall j :: 0 <= j < |pre| ==> s[j] == pre[j];
  }

  lemma KindIsDeclared(optstring: string, c: char, mark: string)
    requires Declares(optstring, c, mark)
    ensures KindOf(optstring, c) == (if mark == "" then Plain else if mark == ":" then Required else Optional)
    ensures c in optstring && c != ':'
  {
    var pre, post :| DeclaredAt(optstring, pre, c, mark, post);
    var t := mark + post;
    assert optstring == pre + [c] + t;
    IndexIs(optstring, c, pre, t);
    TailAt(pre, c, t, 0);
    TailAt(pre, c, t, 1);
    MarkIs(mark, post);
    assert c == optstring[|pre|];
  }

  lemma TailAt<T>(pre: seq<T>, c: T, t: seq<T>, j: nat)
    ensures var s := pre + [c] + t;
      |s| == |pre| + 1 + |t| && (j < |t| ==> s[|pre| + 1 + j] == t[j])
  {
  }

  lemma MarkIs(mark: string, post: string)
    requires mark in {"", ":", "::"} && (|mark| < 2 ==> post == "" || post[0] != ':')
    ensures var t := mark + post;
      && (mark == "" ==> t == "" || t[0] != ':')
      && (mark == ":" ==> |t| >= 1 && t[0] == ':' && (|t| > 1 ==> t[1] != ':'))
      && (mark == "::" ==> |t| >= 2 && t[0] == ':' && t[1] == ':')
  {
    AppendAt(mark, post, 0);
    AppendAt(mark, post, 1);
    assert |mark| == if mark == "" then 0 else if mark == ":" then 1 else 2;
  }

  lemma AppendAt<T>(a: seq<T>, b: seq<T>, i: nat)
    ensures |a + b| == |a| + |b| && (i < |a + b| ==> (a + b)[i] == if i < |a| then a[i] else b[i - |a|])
  {
  }

  lemma DeclaredIsKind(optstring: string, c: char) returns (mark: string)
    ensures KindOf(optstring, c) == Unknown <==> c !in optstring || c == ':'
    ensures KindOf(optstring, c) != Unknown ==> Declares(optstring, c, mark)
    ensures KindOf(optstring, c) == (if c !in optstring || c == ':' then Unknown else if mark == "" then Plain
                                     else if mark == ":" then Required else Optional)
  {
    mark := "";
    var i := Index(optstring, c);
    if i < |optstring| && c != ':' {
      var n := |optstring|;
      var k := if i + 1 >= n || optstring[i + 1] != ':' then 0
               else if i + 2 >= n || optstring[i + 2] != ':' then 1 else 2;
      mark := optstring[i + 1..i + 1 + k];
      Pieces(optstring, i, k);
      assert c !in optstring[..i] && mark == if k == 0 then "" else if k == 1 then ":" else "::";
      assert i + 1 + k < n ==> optstring[i + 1 + k..][0] == optstring[i + 1 + k];
      assert DeclaredAt(optstring, optstring[..i], c, mark, optstring[i + 1 + k..]);
    }
  }

  lemma Pieces<T>(s: seq<T>, i: nat, k: nat)
    requires i + 1 + k <= |s|
    ensures s == s[..i] + [s[i]] + s[i + 1..i + 1 + k] + s[i + 1 + k..]
  {
  }

  // ----- words: what belongs together on a line

  // Options of one character, the last of them with its argument, if it has one, in the
  // same element or the next; a long option; what looks like one and is none, or could
  // be several; and an element that is no option.
  datatype Word =
    | Short(flags: string, c: char, arg: Option<string>, joined: bool)
    | Long(dash: string, name: string, index: nat, arg: Option<string>, joined: bool)
    | Unclear(dash: string, name: string, arg: Option<string>)
    | Other(element: string)

  function Element(w: Word): string {
    match w
    case Short(flags, c, arg, joined) => ("-" + flags + [c]) + if arg.Some? && joined then arg.value else ""
    case Long(dash, name, _, arg, joined) => dash + (name + if arg.Some? && joined then "=" + arg.value else "")
    case Unclear(dash, name, arg) => dash + (name + if arg.Some? then "=" + arg.value else "")
    case Other(element) => element
  }

  // The elements it takes on the line.
  function Spelled(w: Word): (s: seq<string>)
    ensures |s| >= 1 && s[0] == Element(w)
  {
    [Element(w)] + if (w.Short? || w.Long?) && w.arg.Some? && !w.joined then [w.arg.value] else []
  }

  function QuestionMark(): Result { Found('?' as int, None, None) }

  // An option character that takes no argument returns itself if it is declared.
  function FlagResult(optstring: string, c: char): Result {
    if c in optstring && c != ':' then Found(c as int, None, None) else QuestionMark()
  }

  function FlagResults(optstring: string, flags: string): (r: seq<Result>)
    ensures |r| == |flags|
  {
    seq(|flags|, i requires 0 <= i < |flags| => FlagResult(optstring, flags[i]))
  }

  // What a long option returns: its value, or 0 if the program stores that itself.  An
  // argument that it does not take is refused, or ignored with messages off.
  function LongResult(opterr: bool, o: LongOption, index: nat, arg: Option<string>, joined: bool): Result {
    if arg.Some? && joined && o.hasArg == 0 && opterr then QuestionMark()
    else Found(if o.flag then 0 else o.val, if o.hasArg == 0 then None else arg, Some(index))
  }

  function Results(cfg: Config, w: Word): seq<Result>
    requires w.Long? ==> cfg.longopts.Some? && w.index < |cfg.longopts.value|
  {
    match w
    case Short(flags, c, arg, _) =>
      FlagResults(cfg.optstring, flags) +
      [if arg.Some? then Found(c as int, arg, None) else FlagResult(cfg.optstring, c)]
    case Long(_, _, index, arg, joined) => [LongResult(cfg.opterr, cfg.longopts.value[index], index, arg, joined)]
    case Unclear(_, _, _) => [QuestionMark()]
    case Other(_) => []
  }

  // The text up to an equals sign.
  function NameIn(text: string): string { text[..Index(text, '=')] }

  // The text left of this element is not taken for a long option.
  ghost predicate NotLong(cfg: Config, e: string, text: string) {
    && |e| >= 2 && text != ""
    && (cfg.longopts.None? ||
        (e[1] != '-' &&
         (!cfg.longOnly || (|e| == 2 && e[1] in cfg.optstring) ||
          (IsMatch(cfg.longopts.value, NameIn(text), NoMatch) && text[0] in cfg.optstring))))
  }

  // An element "-" text whose first n characters are read as options of one character.
  ghost predicate ShortElement(cfg: Config, e: string, n: nat) {
    && 1 <= n < |e| && e[0] == '-' && e != "--"
    && forall i :: 1 <= i <= n ==> NotLong(cfg, e, e[i..])
  }

  // An element dash text that is looked up among the long options.
  predicate LongElement(cfg: Config, dash: string, text: string) {
    && cfg.longopts.Some? && text != ""
    && (dash == "--" ||
        (dash == "-" && cfg.longOnly && text[0] != '-' && (|text| > 1 || text[0] !in cfg.optstring)))
  }

  ghost predicate Fits(cfg: Config, w: Word) {
    match w
    case Short(flags, c, arg, joined) =>
      && ShortElement(cfg, Element(w), |flags| + 1)
      && (forall f | f in flags :: Simple(cfg.optstring, f))
      && if arg.None? then Simple(cfg.optstring, c) || Declares(cfg.optstring, c, "::")
         else if joined then arg.value != "" && (Declares(cfg.optstring, c, ":") || Declares(cfg.optstring, c, "::"))
         else Declares(cfg.optstring, c, ":")
    case Long(dash, name, index, arg, joined) =>
      && LongElement(cfg, dash, Element(w)[|dash|..]) && '=' !in name && |dash| <= 2
      && index < |cfg.longopts.value| && IsMatch(cfg.longopts.value, name, Matched(index))
      && if arg.None? then cfg.longopts.value[index].hasArg != 1
         else joined || cfg.longopts.value[index].hasArg == 1
    case Unclear(dash, name, arg) =>
      && LongElement(cfg, dash, Element(w)[|dash|..]) && '=' !in name
      && (|| IsMatch(cfg.longopts.value, name, Ambiguous)
          || (IsMatch(cfg.longopts.value, name, NoMatch) &&
              (dash == "--" || Element(w)[|dash|] !in cfg.optstring)))
    case Other(element) => element == "" || element == "-" || element[0] != '-'
  }

  lemma NotLongIsShort(cfg: Config, e: string, text: string, next: Option<string>)
    requires NotLong(cfg, e, text)
    ensures Decode(cfg, e, text, next) == DecodeShort(cfg, text, next)
  {
    hide DecodeShort, IsMatch;
    if cfg.longopts.Some? && LooksLong(cfg, e) {
      LookupIsTheMatch(cfg.longopts.value, NameIn(text), NoMatch);
    }
  }

  lemma FlagIsRead(cfg: Config, c: char, more: string, next: Option<string>)
    requires Simple(cfg.optstring, c)
    ensures DecodeShort(cfg, [c] + more, next) ==
            Decoded(more, if more == "" then 1 else 0, FlagResult(cfg.optstring, c))
  {
    assert ([c] + more)[1..] == more;
    if c in cfg.optstring && c != ':' {
      KindIsDeclared(cfg.optstring, c, "");
    } else {
      var mark := DeclaredIsKind(cfg.optstring, c);
    }
    hide KindOf;
  }

  // Leading characters without argument are read one by one.
  lemma {:induction false} FlagsAreRead(cfg: Config, line: seq<string>, flags: string, tail: string)
    requires line != [] && tail != "" && forall f | f in flags :: Simple(cfg.optstring, f)
    requires forall i :: 0 <= i < |flags| ==> NotLong(cfg, line[0], (flags + tail)[i..])
    ensures Parse(cfg, line, flags + tail) == After(Parse(cfg, line, tail), [], [], FlagResults(cfg.optstring, flags))
    decreases |flags|
  {
    hide Parse, Decode, DecodeShort, NotLong, Simple, FlagResult;
    if flags == "" {
      assert flags + tail == tail;
      NothingAfter(Parse(cfg, line, tail));
    } else {
      var text := flags + tail;
      var more := flags[1..] + tail;
      assert text == [flags[0]] + more && text[0..] == text && text[1..] == more;
      NotLongHas(cfg, line[0], text);
      NotLongIsShort(cfg, line[0], text, NextElement(line));
      FlagIsRead(cfg, flags[0], more, NextElement(line));
      ParseOne(cfg, line, text, Decode(cfg, line[0], text, NextElement(line)));
      assert line[0..] == line && line[..0] == [];
      forall i | 0 <= i < |flags| - 1
        ensures NotLong(cfg, line[0], more[i..])
      {
        assert more[i..] == text[i + 1..];
      }
      FlagsAreRead(cfg, line, flags[1..], tail);
      assert [FlagResult(cfg.optstring, flags[0])] + FlagResults(cfg.optstring, flags[1..]) ==
             FlagResults(cfg.optstring, flags);
      AfterTwice(Parse(cfg, line, tail), [FlagResult(cfg.optstring, flags[0])], FlagResults(cfg.optstring, flags[1..]));
    }
  }

  lemma NothingAfter(p: Parsed)
    ensures After(p, [], [], []) == p
  {
  }

  lemma AfterTwice(p: Parsed, a: seq<Result>, b: seq<Result>)
    ensures After(After(p, [], [], b), [], [], a) == After(p, [], [], a + b)
  {
    assert [] + ([] + p.options) == [] + p.options && [] + ([] + p.others) == [] + p.others;
    assert a + (b + p.results) == a + b + p.results;
  }

  lemma NotLongHas(cfg: Config, e: string, text: string)
    requires NotLong(cfg, e, text)
    ensures |e| >= 2 && text != ""
  {
  }

  // ----- each word is read as it is meant

  // The last option character of an element, with the text after it.
  lemma LastIsRead(cfg: Config, c: char, arg: Option<string>, joined: bool, next: Option<string>)
    requires if arg.None? then Simple(cfg.optstring, c) || Declares(cfg.optstring, c, "::")
             else if joined
             then arg.value != "" && (Declares(cfg.optstring, c, ":") || Declares(cfg.optstring, c, "::"))
             else Declares(cfg.optstring, c, ":") && next == arg
    ensures DecodeShort(cfg, [c] + (if arg.Some? && joined then arg.value else ""), next) ==
            Decoded("", if arg.Some? && !joined then 2 else 1,
                    if arg.Some? then Found(c as int, arg, None) else FlagResult(cfg.optstring, c))
  {
    var more := if arg.Some? && joined then arg.value else "";
    assert ([c] + more)[1..] == more;
    if arg.None? && Simple(cfg.optstring, c) {
      FlagIsRead(cfg, c, "", next);
    } else {
      var mark := if arg.None? || (joined && Declares(cfg.optstring, c, "::")) then "::" else ":";
      KindIsDeclared(cfg.optstring, c, mark);
      hide KindOf, Declares, Simple;
      assert KindOf(cfg.optstring, c) == if mark == "::" then Optional else Required;
      assert arg.Some? && joined ==> more == arg.value;
    }
  }

  // Missing at the end of the line it is reported.
  lemma LackIsRead(cfg: Config, c: char)
    requires Declares(cfg.optstring, c, ":")
    ensures DecodeShort(cfg, [c], None) == Decoded("", 1, MissingResult(cfg.optstring))
  {
    KindIsDeclared(cfg.optstring, c, ":");
    hide KindOf;
  }

  function MissingResult(optstring: string): Result {
    if optstring != "" && optstring[0] == ':' then Found(':' as int, None, None) else QuestionMark()
  }

  lemma ElementBegins(cfg: Config, line: seq<string>, n: nat)
    requires line != [] && ShortElement(cfg, line[0], n)
    ensures Parse(cfg, line, "") == Parse(cfg, line, line[0][1..])
  {
    assert NotLong(cfg, line[0], line[0][1..]);
  }

  // Characters without argument, and a last one that ends the reading of the element.
  lemma ShortElementIsRead(cfg: Config, line: seq<string>, flags: string, tail: string, d: Decoded)
    requires line != [] && tail != "" && line[0] == "-" + (flags + tail) && ShortElement(cfg, line[0], |flags| + 1)
    requires forall f | f in flags :: Simple(cfg.optstring, f)
    requires d == DecodeShort(cfg, tail, NextElement(line)) && d.nextchar == ""
    ensures d.advance <= |line|
    ensures Parse(cfg, line, "") ==
            After(Parse(cfg, line[d.advance..], ""), line[..d.advance], [],
                  FlagResults(cfg.optstring, flags) + [d.result])
  {
    hide Parse, Decode, DecodeShort, NotLong, Simple, FlagResults;
    var e := line[0];
    ElementBegins(cfg, line, |flags| + 1);
    assert e[1..] == flags + tail && (flags + tail)[|flags|..] == tail;
    forall i | 0 <= i <= |flags|
      ensures NotLong(cfg, e, (flags + tail)[i..])
    {
      assert e[1 + i..] == (flags + tail)[i..];
    }
    FlagsAreRead(cfg, line, flags, tail);
    NotLongHas(cfg, e, tail);
    NotLongIsShort(cfg, e, tail, NextElement(line));
    ParseOne(cfg, line, tail, d);
    OptionsThenResults(Parse(cfg, line[d.advance..], ""), line[..d.advance],
                       FlagResults(cfg.optstring, flags), [d.result]);
  }

  lemma OptionsThenResults(p: Parsed, o: seq<string>, a: seq<Result>, b: seq<Result>)
    ensures After(After(p, o, [], b), [], [], a) == After(p, o, [], a + b)
  {
    assert [] + (o + p.options) == o + p.options && [] + ([] + p.others) == [] + p.others;
    assert a + (b + p.results) == a + b + p.results;
  }

  // The elements of a word that are options or belong to them, and those that are not.
  function OptionsOf(w: Word): seq<string> { if w.Other? then [] else Spelled(w) }

  function OthersOf(w: Word): seq<string> { if w.Other? then [w.element] else [] }

  ghost predicate IsRead(cfg: Config, w: Word, rest: seq<string>)
    requires w.Long? ==> cfg.longopts.Some? && w.index < |cfg.longopts.value|
  {
    Parse(cfg, Spelled(w) + rest, "") == After(Parse(cfg, rest, ""), OptionsOf(w), OthersOf(w), Results(cfg, w))
  }

  lemma ShortIsRead(cfg: Config, w: Word, rest: seq<string>)
    requires w.Short? && Fits(cfg, w)
    ensures IsRead(cfg, w, rest)
  {
    hide Parse, DecodeShort, NotLong, Simple, Declares, FlagResults, FlagResult;
    var line := Spelled(w) + rest;
    var tail := [w.c] + if w.arg.Some? && w.joined then w.arg.value else "";
    assert Element(w) == "-" + (w.flags + tail);
    assert w.arg.Some? && !w.joined ==> NextElement(line) == w.arg;
    LastIsRead(cfg, w.c, w.arg, w.joined, NextElement(line));
    ShortElementIsRead(cfg, line, w.flags, tail, DecodeShort(cfg, tail, NextElement(line)));
    assert line[..|Spelled(w)|] == Spelled(w) && line[|Spelled(w)|..] == rest;
  }

  lemma LongBegins(cfg: Config, line: seq<string>, dash: string, text: string)
    requires line != [] && line[0] == dash + text && LongElement(cfg, dash, text)
    ensures Parse(cfg, line, "") == Parse(cfg, line, text)
    ensures |line[0]| >= 2 && LooksLong(cfg, line[0]) && (line[0][1] == '-' <==> dash == "--")
  {
    assert line[0][|dash|..] == text;
  }

  lemma NoIndex(s: string, c: char)
    requires c !in s
    ensures Index(s, c) == |s|
  {
  }

  lemma NameOfText(name: string, arg: Option<string>)
    requires '=' !in name
    ensures var text := name + if arg.Some? then "=" + arg.value else "";
      && NameIn(text) == name && Index(text, '=') == |name|
      && (arg.Some? ==> |name| < |text| && text[|name| + 1..] == arg.value) && (arg.None? ==> |name| == |text|)
  {
    var text := name + if arg.Some? then "=" + arg.value else "";
    if arg.Some? {
      assert text == name + ['='] + arg.value;
      IndexIs(text, '=', name, arg.value);
    } else {
      assert text == name;
      NoIndex(text, '=');
    }
  }

  lemma LongIsDecoded(cfg: Config, w: Word, e: string, text: string, next: Option<string>)
    requires w.Long? && Fits(cfg, w) && |e| >= 2 && LooksLong(cfg, e)
    requires text == Element(w)[|w.dash|..] && (w.arg.Some? && !w.joined ==> next == w.arg)
    ensures text != ""
    ensures Decode(cfg, e, text, next) == Decoded("", |Spelled(w)|, Results(cfg, w)[0])
  {
    hide IsMatch;
    var arg := if w.joined then w.arg else None;
    assert text == w.name + if arg.Some? then "=" + arg.value else "";
    NameOfText(w.name, arg);
    LookupIsTheMatch(cfg.longopts.value, w.name, Matched(w.index));
    hide Lookup, LongElement, Element;
    var o := cfg.longopts.value[w.index];
    hide Index;
    assert Decode(cfg, e, text, next) == DecodeLong(cfg, o, w.index, text, next);
    hide LooksLong, Decode;
    LongDecodes(cfg, o, w.index, text, w.name, w.arg, w.joined, next);
  }

  lemma LongDecodes(cfg: Config, o: LongOption, k: nat, text: string, name: string, arg: Option<string>,
                    joined: bool, next: Option<string>)
    requires Index(text, '=') == |name|
    requires arg.Some? && joined ==> |name| < |text| && text[|name| + 1..] == arg.value
    requires !(arg.Some? && joined) ==> |name| == |text|
    requires if arg.None? then o.hasArg != 1 else joined || (o.hasArg == 1 && next == arg)
    ensures DecodeLong(cfg, o, k, text, next) ==
            Decoded("", if arg.Some? && !joined then 2 else 1, LongResult(cfg.opterr, o, k, arg, joined))
  {
    hide Index;
  }

  lemma LongIsRead(cfg: Config, w: Word, rest: seq<string>)
    requires w.Long? && Fits(cfg, w)
    ensures IsRead(cfg, w, rest)
  {
    var line := Spelled(w) + rest;
    var text := Element(w)[|w.dash|..];
    assert Element(w) == w.dash + text;
    LongBegins(cfg, line, w.dash, text);
    assert w.arg.Some? && !w.joined ==> NextElement(line) == w.arg;
    LongIsDecoded(cfg, w, line[0], text, NextElement(line));
    hide Parse, Decode, Fits;
    ParseOne(cfg, line, text, Decode(cfg, line[0], text, NextElement(line)));
    assert line[..|Spelled(w)|] == Spelled(w) && line[|Spelled(w)|..] == rest;
  }

  lemma UnclearIsRead(cfg: Config, w: Word, rest: seq<string>)
    requires w.Unclear? && Fits(cfg, w)
    ensures IsRead(cfg, w, rest)
  {
    var line := Spelled(w) + rest;
    var text := Element(w)[|w.dash|..];
    assert Element(w) == w.dash + text;
    LongBegins(cfg, line, w.dash, text);
    assert text == w.name + if w.arg.Some? then "=" + w.arg.value else "";
    NameOfText(w.name, w.arg);
    var d := Decode(cfg, line[0], text, NextElement(line));
    assert d == Decoded("", 1, QuestionMark()) by {
      hide IsMatch;
      var m := if IsMatch(cfg.longopts.value, w.name, Ambiguous) then Ambiguous else NoMatch;
      LookupIsTheMatch(cfg.longopts.value, w.name, m);
    }
    hide Parse, Decode, Fits;
    ParseOne(cfg, line, text, d);
    assert line[..1] == Spelled(w) && line[1..] == rest;
  }

  lemma OtherIsRead(cfg: Config, w: Word, rest: seq<string>)
    requires w.Other? && Fits(cfg, w)
    ensures IsRead(cfg, w, rest)
  {
    assert (Spelled(w) + rest)[1..] == rest;
  }

  lemma WordIsRead(cfg: Config, w: Word, rest: seq<string>)
    requires Fits(cfg, w)
    ensures IsRead(cfg, w, rest)
  {
    hide Fits, IsRead;
    match w
    case Short(_, _, _, _) => ShortIsRead(cfg, w, rest);
    case Long(_, _, _, _, _) => LongIsRead(cfg, w, rest);
    case Unclear(_, _, _) => UnclearIsRead(cfg, w, rest);
    case Other(_) => OtherIsRead(cfg, w, rest);
  }

  // ----- whole lines

  // How a line ends: just so, with the marker after which nothing is an option, or with
  // an option whose argument is missing.
  datatype Ending =
    | Plainly
    | Marker(others: seq<string>)
    | ShortLacks(flags: string, c: char)
    | LongLacks(dash: string, name: string, index: nat)

  function SpelledEnd(end: Ending): seq<string> {
    match end
    case Plainly => []
    case Marker(others) => ["--"] + others
    case ShortLacks(flags, c) => ["-" + (flags + [c])]
    case LongLacks(dash, name, _) => [dash + name]
  }

  ghost predicate EndFits(cfg: Config, end: Ending) {
    match end
    case Plainly => true
    case Marker(_) => true
    case ShortLacks(flags, c) =>
      && ShortElement(cfg, "-" + (flags + [c]), |flags| + 1)
      && (forall f | f in flags :: Simple(cfg.optstring, f)) && Declares(cfg.optstring, c, ":")
    case LongLacks(dash, name, index) =>
      && LongElement(cfg, dash, name) && '=' !in name && |dash| <= 2
      && index < |cfg.longopts.value| && IsMatch(cfg.longopts.value, name, Matched(index))
      && cfg.longopts.value[index].hasArg == 1
  }

  function EndParsed(cfg: Config, end: Ending): Parsed {
    match end
    case Plainly => Parsed([], [], [])
    case Marker(others) => Parsed(["--"], others, [])
    case ShortLacks(flags, _) =>
      Parsed(SpelledEnd(end), [], FlagResults(cfg.optstring, flags) + [MissingResult(cfg.optstring)])
    case LongLacks(_, _, _) => Parsed(SpelledEnd(end), [], [MissingResult(cfg.optstring)])
  }

  lemma EndIsRead(cfg: Config, end: Ending)
    requires EndFits(cfg, end)
    ensures Parse(cfg, SpelledEnd(end), "") == EndParsed(cfg, end)
  {
    var line := SpelledEnd(end);
    match end
    case Plainly =>
    case Marker(others) =>
      assert line[1..] == others;
    case ShortLacks(flags, c) =>
      LackIsRead(cfg, c);
      ShortElementIsRead(cfg, line, flags, [c], DecodeShort(cfg, [c], None));
      assert line[1..] == [] && line[..1] == line;
      NothingFollows(cfg, line, FlagResults(cfg.optstring, flags) + [MissingResult(cfg.optstring)]);
    case LongLacks(dash, name, index) =>
      LongLackIsDecoded(cfg, end);
      LongBegins(cfg, line, dash, name);
      hide Parse, Decode;
      ParseOne(cfg, line, name, Decode(cfg, line[0], name, None));
      assert line[1..] == [] && line[..1] == line;
      NothingFollows(cfg, line, [MissingResult(cfg.optstring)]);
  }

  lemma NothingFollows(cfg: Config, options: seq<string>, results: seq<Result>)
    ensures After(Parse(cfg, [], ""), options, [], results) == Parsed(options, [], results)
  {
  }

  lemma LongLackIsDecoded(cfg: Config, end: Ending)
    requires end.LongLacks? && EndFits(cfg, end)
    ensures var e := end.dash + end.name;
      |e| >= 2 && Decode(cfg, e, end.name, None) == Decoded("", 1, MissingResult(cfg.optstring))
  {
    hide IsMatch;
    NoIndex(end.name, '=');
    LookupIsTheMatch(cfg.longopts.value, end.name, Matched(end.index));
    LongBegins(cfg, [end.dash + end.name], end.dash, end.name);
    assert end.name[..|end.name|] == end.name;
    hide Lookup, Index, LooksLong;
  }

  function Line(words: seq<Word>, end: Ending): seq<string> {
    if words == [] then SpelledEnd(end) else Spelled(words[0]) + Line(words[1..], end)
  }

  // What the words mean together.
  function Meant(cfg: Config, words: seq<Word>, end: Ending): Parsed
    requires forall w | w in words && w.Long? :: cfg.longopts.Some? && w.index < |cfg.longopts.value|
  {
    if words == [] then EndParsed(cfg, end)
    else After(Meant(cfg, words[1..], end), OptionsOf(words[0]), OthersOf(words[0]), Results(cfg, words[0]))
  }

  ghost predicate AllFit(cfg: Config, words: seq<Word>, end: Ending) {
    (forall w | w in words :: Fits(cfg, w)) && EndFits(cfg, end)
  }

  lemma FitsIndex(cfg: Config, words: seq<Word>)
    requires forall w | w in words :: Fits(cfg, w)
    ensures forall w | w in words && w.Long? :: cfg.longopts.Some? && w.index < |cfg.longopts.value|
  {
  }

  // Every line of words and an ending is read as they mean.
  lemma {:induction false} LineIsRead(cfg: Config, words: seq<Word>, end: Ending)
    requires AllFit(cfg, words, end)
    ensures forall w | w in words && w.Long? :: cfg.longopts.Some? && w.index < |cfg.longopts.value|
    ensures Parse(cfg, Line(words, end), "") == Meant(cfg, words, end)
  {
    hide Fits, EndFits, Parse, Spelled, Results, EndParsed;
    FitsIndex(cfg, words);
    if words == [] {
      EndIsRead(cfg, end);
    } else {
      LineIsRead(cfg, words[1..], end);
      WordIsRead(cfg, words[0], Line(words[1..], end));
    }
  }

  // ----- every line is one of words, unless single dashes begin long options too

  predicate NoSingleDash(cfg: Config) { cfg.longopts.Some? ==> !cfg.longOnly }

  // The first characters that take no argument.
  function Leading(optstring: string, text: string): (n: nat)
    ensures n <= |text|
  {
    if text == "" || KindOf(optstring, text[0]) in {Optional, Required} then 0 else 1 + Leading(optstring, text[1..])
  }

  lemma {:induction false} LeadingAreSimple(optstring: string, text: string)
    ensures var n := Leading(optstring, text);
      && (forall f | f in text[..n] :: Simple(optstring, f))
      && (n < |text| ==> Declares(optstring, text[n], ":") || Declares(optstring, text[n], "::"))
  {
    if text != "" {
      var mark := DeclaredIsKind(optstring, text[0]);
      hide KindOf, Declares;
      if KindOf(optstring, text[0]) !in {Optional, Required} {
        var n := Leading(optstring, text[1..]);
        LeadingAreSimple(optstring, text[1..]);
        assert text[..n + 1] == [text[0]] + text[1..][..n];
      }
    }
  }

  // The first word of a line, or its ending.
  datatype Start = Begins(word: Word) | Ends(end: Ending)

  ghost predicate StartsLine(cfg: Config, line: seq<string>, b: Start) {
    match b
    case Begins(w) => Fits(cfg, w) && Spelled(w) <= line
    case Ends(end) => EndFits(cfg, end) && SpelledEnd(end) == line
  }

  // A word whose elements the line starts with.
  lemma WordStarts(cfg: Config, line: seq<string>, w: Word)
    requires Fits(cfg, w) && line != [] && line[0] == Element(w)
    requires (w.Short? || w.Long?) && w.arg.Some? && !w.joined ==> |line| > 1 && w.arg == Some(line[1])
    ensures StartsLine(cfg, line, Begins(w))
  {
    hide Fits, Element;
    assert Spelled(w) == line[..|Spelled(w)|];
  }

  lemma NoneIsLong(cfg: Config, e: string, n: nat)
    requires NoSingleDash(cfg) && 1 <= n < |e| && e[0] == '-' && e != "--" && (cfg.longopts.Some? ==> e[1] != '-')
    ensures ShortElement(cfg, e, n)
  {
  }

  lemma SplitText(e: string, n: nat)
    requires |e| >= 2 && e[0] == '-' && n + 1 < |e|
    ensures "-" + e[1..][..n] + [e[n + 1]] + e[n + 2..] == e
    ensures n + 2 == |e| ==> "-" + e[1..][..n] + [e[n + 1]] == e && "-" + (e[1..][..n] + [e[n + 1]]) == e
  {
  }

  lemma ShortBegins(cfg: Config, line: seq<string>) returns (b: Start)
    requires NoSingleDash(cfg) && line != [] && |line[0]| >= 2 && line[0][0] == '-' && line[0] != "--"
    requires cfg.longopts.Some? ==> line[0][1] != '-'
    ensures StartsLine(cfg, line, b)
  {
    var e := line[0];
    var text := e[1..];
    LeadingAreSimple(cfg.optstring, text);
    var n := Leading(cfg.optstring, text);
    hide Simple, Declares, ShortElement, Leading;
    if n == |text| {
      NoneIsLong(cfg, e, n);
      assert text[..n] == text;
      b := UnmarkedBegins(cfg, line);
    } else {
      SplitText(e, n);
      NoneIsLong(cfg, e, n + 1);
      b := MarkedBegins(cfg, line, n);
    }
  }

  // All the characters are without argument.
  lemma UnmarkedBegins(cfg: Config, line: seq<string>) returns (b: Start)
    requires line != [] && |line[0]| >= 2 && line[0][0] == '-' && ShortElement(cfg, line[0], |line[0]| - 1)
    requires forall f | f in line[0][1..] :: Simple(cfg.optstring, f)
    ensures StartsLine(cfg, line, b)
  {
    hide Simple, Declares, ShortElement;
    var e := line[0];
    var n := |e| - 2;
    SplitText(e, n);
    var w := Short(e[1..][..n], e[n + 1], None, false);
    assert e[n + 1] == e[1..][n];
    assert forall f | f in w.flags :: f in e[1..];
    assert Element(w) == e;
    WordStarts(cfg, line, w);
    b := Begins(w);
  }

  // After the characters without argument comes one that has a mark.
  lemma MarkedBegins(cfg: Config, line: seq<string>, n: nat) returns (b: Start)
    requires line != [] && n + 1 < |line[0]| && line[0][0] == '-' && ShortElement(cfg, line[0], n + 1)
    requires forall f | f in line[0][1..][..n] :: Simple(cfg.optstring, f)
    requires Declares(cfg.optstring, line[0][n + 1], ":") || Declares(cfg.optstring, line[0][n + 1], "::")
    ensures StartsLine(cfg, line, b)
  {
    hide Simple, Declares, ShortElement;
    var e := line[0];
    SplitText(e, n);
    var flags, c, more := e[1..][..n], e[n + 1], e[n + 2..];
    if more == "" && !Declares(cfg.optstring, c, "::") && |line| == 1 {
      b := Ends(ShortLacks(flags, c));
      assert line == [e];
    } else {
      var w := if more != "" then Short(flags, c, Some(more), true)
               else if Declares(cfg.optstring, c, "::") then Short(flags, c, None, false)
               else Short(flags, c, Some(line[1]), false);
      assert Element(w) == e;
      assert Fits(cfg, w);
      WordStarts(cfg, line, w);
      b := Begins(w);
    }
  }

  lemma NameSplits(text: string) returns (name: string, arg: Option<string>)
    ensures name == text[..Index(text, '=')] && '=' !in name
    ensures text == name + if arg.Some? then "=" + arg.value else ""
  {
    var n := Index(text, '=');
    name := text[..n];
    arg := if n < |text| then Some(text[n + 1..]) else None;
    if n < |text| {
      assert text == text[..n] + [text[n]] + text[n + 1..];
    }
  }

  lemma LongBeginsLine(cfg: Config, line: seq<string>) returns (b: Start)
    requires line != [] && |line[0]| > 2 && line[0][..2] == "--" && cfg.longopts.Some?
    ensures StartsLine(cfg, line, b)
  {
    var e := line[0];
    var text := e[2..];
    assert e == "--" + text;
    var name, arg := NameSplits(text);
    var m := Lookup(cfg.longopts.value, name);
    LookupIsTheMatch(cfg.longopts.value, name, m);
    hide IsMatch, Lookup, Index;
    if m.Matched? && arg.None? && cfg.longopts.value[m.index].hasArg == 1 && |line| == 1 {
      b := Ends(LongLacks("--", name, m.index));
      assert line == [e] && text == name;
    } else {
      var w := if m.NoMatch? || m.Ambiguous? then Unclear("--", name, arg)
               else if arg.None? && cfg.longopts.value[m.index].hasArg == 1
               then Long("--", name, m.index, Some(line[1]), false)
               else Long("--", name, m.index, arg, true);
      assert Element(w) == e && Element(w)[2..] == text;
      assert Fits(cfg, w);
      WordStarts(cfg, line, w);
      b := Begins(w);
    }
  }

  lemma LineBegins(cfg: Config, line: seq<string>) returns (b: Start)
    requires NoSingleDash(cfg)
    ensures StartsLine(cfg, line, b)
  {
    if line == [] {
      b := Ends(Plainly);
    } else {
      var e := line[0];
      if e == "--" {
        assert line == ["--"] + line[1..];
        b := Ends(Marker(line[1..]));
      } else if e == "" || e == "-" || e[0] != '-' {
        b := Begins(Other(e));
      } else if cfg.longopts.Some? && e[1] == '-' {
        assert e[..2] == "--" && |e| > 2;
        b := LongBeginsLine(cfg, line);
      } else {
        b := ShortBegins(cfg, line);
      }
    }
  }

  // So there is no line whose reading the words do not give.
  lemma {:induction false} EveryLineIsOfWords(cfg: Config, line: seq<string>) returns (words: seq<Word>, end: Ending)
    requires NoSingleDash(cfg)
    ensures AllFit(cfg, words, end) && Line(words, end) == line
    ensures forall w | w in words && w.Long? :: cfg.longopts.Some? && w.index < |cfg.longopts.value|
    ensures Parse(cfg, line, "") == Meant(cfg, words, end)
    decreases |line|
  {
    hide Fits, EndFits, Parse, Spelled, Meant;
    var b := LineBegins(cfg, line);
    if b.Ends? {
      words, end := [], b.end;
    } else {
      var w := b.word;
      var n := SpelledLength(w, line);
      words, end := EveryLineIsOfWords(cfg, line[n..]);
      assert ([w] + words)[1..] == words && line == Spelled(w) + line[n..];
      words := [w] + words;
    }
    LineIsRead(cfg, words, end);
  }

  lemma SpelledLength(w: Word, line: seq<string>) returns (n: nat)
    requires Spelled(w) <= line
    ensures 1 <= n <= |line| && line[..n] == Spelled(w)
  {
    n := |Spelled(w)|;
  }
}
