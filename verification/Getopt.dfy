// The permuting option scanner (src/gnu_getopt.c): argv is rearranged in place
// while options are returned one call at a time.

module Getopt {
  import opened Common
  import opened LongOptions

  // What a call tells its caller: the returned code, optarg, and *longind.
  datatype Result = Done | Found(code: int, arg: Option<string>, longind: Option<nat>)

  // The arguments that stay the same from call to call.
  datatype Config = Config(optstring: string, longopts: Option<seq<LongOption>>, longOnly: bool, opterr: bool)

  // ----- one option element

  predicate IsNonOption(e: string) { |e| == 0 || e[0] != '-' || |e| == 1 }

  // The text of an option element after its punctuation.
  function OptionText(cfg: Config, e: string): (t: string)
    requires !IsNonOption(e) && e != "--"
    ensures t != ""
  {
    if cfg.longopts.Some? && e[1] == '-' then e[2..] else e[1..]
  }

  // The position of c, or the length of s.
  function Index(s: string, c: char): (i: nat)
    ensures i <= |s| && (i < |s| ==> s[i] == c) && forall j :: 0 <= j < i ==> s[j] != c
  {
    if s == "" || s[0] == c then 0 else 1 + Index(s[1..], c)
  }

  // How an option character is declared.
  datatype Kind = Unknown | Plain | Optional | Required

  function KindOf(optstring: string, c: char): Kind {
    var i := Index(optstring, c);
    if i == |optstring| || c == ':' then Unknown
    else if i + 1 < |optstring| && optstring[i + 1] == ':' then
      if i + 2 < |optstring| && optstring[i + 2] == ':' then Optional else Required
    else Plain
  }

  function MissingArg(cfg: Config): int {
    if cfg.optstring != "" && cfg.optstring[0] == ':' then ':' as int else '?' as int
  }

  // The outcome of decoding: what is left of the element's text, how many
  // elements are finished with, and the result.
  datatype Decoded = Decoded(nextchar: string, advance: nat, result: Result)

  function DecodeShort(cfg: Config, text: string, next: Option<string>): (d: Decoded)
    requires text != ""
    ensures d.result.Found? && |d.nextchar| < |text|
    ensures d.nextchar != "" ==> d.advance == 0
    ensures d.nextchar == "" ==> 1 <= d.advance <= if next.Some? then 2 else 1
  {
    var c, rest := text[0], text[1..];
    match KindOf(cfg.optstring, c)
    case Unknown => Decoded(rest, if rest == "" then 1 else 0, Found('?' as int, None, None))
    case Plain => Decoded(rest, if rest == "" then 1 else 0, Found(c as int, None, None))
    case Optional => Decoded("", 1, Found(c as int, if rest != "" then Some(rest) else None, None))
    case Required =>
      if rest != "" then Decoded("", 1, Found(c as int, Some(rest), None))
      else if next.Some? then Decoded("", 2, Found(c as int, next, None))
      else Decoded("", 1, Found(MissingArg(cfg), None, None))
  }

  // Whether the element is looked up among the long options.
  predicate LooksLong(cfg: Config, e: string)
    requires |e| >= 2
  {
    cfg.longopts.Some? && (e[1] == '-' || (cfg.longOnly && (|e| > 2 || e[1] !in cfg.optstring)))
  }

  // A long option that was found; with opterr off an unwanted argument is ignored.
  function DecodeLong(cfg: Config, o: LongOption, k: nat, text: string, next: Option<string>): (d: Decoded)
    ensures d.result.Found? && d.nextchar == "" && 1 <= d.advance <= if next.Some? then 2 else 1
  {
    var n := Index(text, '=');
    var code := if o.flag then 0 else o.val;
    if n < |text| then
      if o.hasArg != 0 then Decoded("", 1, Found(code, Some(text[n + 1..]), Some(k)))
      else if cfg.opterr then Decoded("", 1, Found('?' as int, None, None))
      else Decoded("", 1, Found(code, None, Some(k)))
    else if o.hasArg == 1 then
      if next.Some? then Decoded("", 2, Found(code, next, Some(k)))
      else Decoded("", 1, Found(MissingArg(cfg), None, None))
    else Decoded("", 1, Found(code, None, Some(k)))
  }

  function Decode(cfg: Config, e: string, text: string, next: Option<string>): (d: Decoded)
    requires |e| >= 2 && text != ""
    ensures d.result.Found? && |d.nextchar| < |text|
    ensures d.nextchar != "" ==> d.advance == 0
    ensures d.nextchar == "" ==> 1 <= d.advance <= if next.Some? then 2 else 1
  {
    if LooksLong(cfg, e) then
      match Lookup(cfg.longopts.value, text[..Index(text, '=')])
      case Ambiguous => Decoded("", 1, Found('?' as int, None, None))
      case Matched(k) => DecodeLong(cfg, cfg.longopts.value[k], k, text, next)
      case NoMatch =>
        if !cfg.longOnly || e[1] == '-' || text[0] !in cfg.optstring then
          Decoded("", 1, Found('?' as int, None, None))
        else DecodeShort(cfg, text, next)
    else DecodeShort(cfg, text, next)
  }

  // ----- the whole command line, read from left to right without moving anything

  // The elements that are options or belong to them, the others, and what the
  // calls return.
  datatype Parsed = Parsed(options: seq<string>, others: seq<string>, results: seq<Result>)

  function After(p: Parsed, options: seq<string>, others: seq<string>, results: seq<Result>): Parsed {
    Parsed(options + p.options, others + p.others, results + p.results)
  }

  function NextElement(rest: seq<string>): Option<string> {
    if |rest| >= 2 then Some(rest[1]) else None
  }

  // text is what is left to read of the first element, if it has been begun.
  function Parse(cfg: Config, rest: seq<string>, text: string): Parsed
    decreases |rest|, if text == "" then 1 else 0, |text|
  {
    if rest == [] then Parsed([], [], [])
    else if text != "" then
      if |rest[0]| < 2 then Parsed([], [], [])
      else
        var d := Decode(cfg, rest[0], text, NextElement(rest));
        After(Parse(cfg, rest[d.advance..], d.nextchar), rest[..d.advance], [], [d.result])
    else if rest[0] == "--" then Parsed([rest[0]], rest[1..], [])
    else if IsNonOption(rest[0]) then After(Parse(cfg, rest[1..], ""), [], [rest[0]], [])
    else Parse(cfg, rest, OptionText(cfg, rest[0]))
  }

  // The elements whose mark is as given, in order.
  function Marked(xs: seq<string>, marks: seq<bool>, mark: bool): seq<string>
    requires |xs| == |marks|
  {
    if xs == [] then [] else (if marks[0] == mark then [xs[0]] else []) + Marked(xs[1..], marks[1..], mark)
  }

  lemma {:induction false} MarkedConcat(a: seq<string>, b: seq<string>, m: seq<bool>, n: seq<bool>, mark: bool)
    requires |a| == |m| && |b| == |n|
    ensures Marked(a + b, m + n, mark) == Marked(a, m, mark) + Marked(b, n, mark)
    decreases |a|
  {
    if a == [] {
      assert a + b == b && m + n == n;
    } else {
      assert (a + b)[1..] == a[1..] + b && (m + n)[1..] == m[1..] + n;
      MarkedConcat(a[1..], b, m[1..], n, mark);
    }
  }

  lemma {:induction false} AllMarked(a: seq<string>, m: seq<bool>, mark: bool)
    requires |a| == |m| && forall i :: 0 <= i < |m| ==> m[i] == mark
    ensures Marked(a, m, mark) == a && Marked(a, m, !mark) == []
    decreases |a|
  {
    if a != [] {
      AllMarked(a[1..], m[1..], mark);
    }
  }

  // Reading splits the elements in two without dropping, repeating or reordering
  // any: every element is marked as an option's or not, and each part lists its
  // own in the original order.
  lemma {:induction false} ParseIsStablePartition(cfg: Config, rest: seq<string>, text: string)
    returns (marks: seq<bool>)
    requires text != "" ==> rest != [] && |rest[0]| >= 2
    ensures |marks| == |rest|
    ensures Parse(cfg, rest, text).options == Marked(rest, marks, true)
    ensures Parse(cfg, rest, text).others == Marked(rest, marks, false)
    decreases |rest|, if text == "" then 1 else 0, |text|
  {
    if rest == [] {
      marks := [];
    } else if text != "" {
      hide Decode;
      var d := Decode(cfg, rest[0], text, NextElement(rest));
      var k := d.advance;
      var later := ParseIsStablePartition(cfg, rest[k..], d.nextchar);
      var own := seq(k, _ => true);
      marks := own + later;
      Prefixed(rest, k, own, later, true);
    } else if rest[0] == "--" {
      var tail := seq(|rest| - 1, _ => false);
      marks := [true] + tail;
      AllMarked(rest[1..], tail, false);
      Prefixed(rest, 1, [true], tail, true);
    } else if IsNonOption(rest[0]) {
      var later := ParseIsStablePartition(cfg, rest[1..], "");
      marks := [false] + later;
      Prefixed(rest, 1, [false], later, false);
      assert rest[..1] == [rest[0]];
    } else {
      marks := ParseIsStablePartition(cfg, rest, OptionText(cfg, rest[0]));
    }
  }

  lemma Prefixed(rest: seq<string>, k: nat, m: seq<bool>, n: seq<bool>, mark: bool)
    requires k == |m| <= |rest| == |m| + |n| && forall i :: 0 <= i < k ==> m[i] == mark
    ensures Marked(rest, m + n, mark) == rest[..k] + Marked(rest[k..], n, mark)
    ensures Marked(rest, m + n, !mark) == Marked(rest[k..], n, !mark)
  {
    assert rest == rest[..k] + rest[k..];
    AllMarked(rest[..k], m, mark);
    MarkedConcat(rest[..k], rest[k..], m, n, true);
    MarkedConcat(rest[..k], rest[k..], m, n, false);
    assert [] + Marked(rest[k..], n, !mark) == Marked(rest[k..], n, !mark);
  }

  // ----- exchanging two neighbouring blocks

  function Rotate<T>(s: seq<T>, bottom: nat, middle: nat, top: nat): (r: seq<T>)
    requires bottom <= middle <= top <= |s|
    ensures |r| == |s|
  {
    s[..bottom] + s[middle..top] + s[bottom..middle] + s[top..]
  }

  function Swapped<T>(s: seq<T>, a: nat, b: nat, len: nat): (r: seq<T>)
    requires a + len <= b && b + len <= |s|
    ensures |r| == |s|
  {
    s[..a] + s[b..b + len] + s[a + len..b] + s[a..a + len] + s[b + len..]
  }

  lemma NothingToRotate<T>(s: seq<T>, bottom: nat, middle: nat, top: nat)
    requires bottom <= middle <= top <= |s| && (bottom == middle || middle == top)
    ensures Rotate(s, bottom, middle, top) == s
  {
  }

  // The same on the blocks themselves.
  lemma RotateBlocks<T>(a: seq<T>, b: seq<T>, c: seq<T>, d: seq<T>)
    ensures var s := a + b + c + d; Rotate(s, |a|, |a| + |b|, |a| + |b| + |c|) == a + c + b + d
  {
  }

  lemma SwapBlocksOf<T>(a: seq<T>, x: seq<T>, m: seq<T>, y: seq<T>, d: seq<T>)
    requires |x| == |y|
    ensures var s := a + x + m + y + d; Swapped(s, |a|, |a| + |x| + |m|, |x|) == a + y + m + x + d
  {
  }

  lemma SwappedAt<T>(s: seq<T>, a: nat, b: nat, len: nat, j: nat)
    requires a + len <= b && b + len <= |s| && j < |s|
    ensures Swapped(s, a, b, len)[j] ==
            if a <= j < a + len then s[j - a + b] else if b <= j < b + len then s[j - b + a] else s[j]
  {
  }

  lemma SwapNone<T>(s: seq<T>, a: nat, b: nat)
    requires a <= b <= |s|
    ensures Swapped(s, a, b, 0) == s
  {
  }

  lemma SwapOneMore<T>(s: seq<T>, a: nat, b: nat, i: nat)
    requires a + i + 1 <= b && b + i + 1 <= |s|
    ensures var r := Swapped(s, a, b, i); r[a + i] == s[a + i] && r[b + i] == s[b + i]
    ensures Swapped(s, a, b, i)[a + i := s[b + i]][b + i := s[a + i]] == Swapped(s, a, b, i + 1)
  {
    hide Swapped;
    var r, t := Swapped(s, a, b, i), Swapped(s, a, b, i + 1);
    SwappedAt(s, a, b, i, a + i);
    SwappedAt(s, a, b, i, b + i);
    SwappedAt(s, a, b, i + 1, a + i);
    SwappedAt(s, a, b, i + 1, b + i);
    forall j: nat | j < |s| && j != a + i && j != b + i
      ensures t[j] == r[j]
    {
      SwappedAt(s, a, b, i, j);
      SwappedAt(s, a, b, i + 1, j);
    }
  }

  lemma FivePieces<T>(s: seq<T>, i: nat, j: nat, k: nat, l: nat)
    requires i <= j <= k <= l <= |s|
    ensures s == s[..i] + s[i..j] + s[j..k] + s[k..l] + s[l..]
  {
  }

  // Swapping the short bottom block with the far end of the top block leaves a
  // smaller exchange with the same outcome.
  lemma ShortBottom<T>(s: seq<T>, bottom: nat, middle: nat, top: nat)
    requires bottom < middle < top <= |s| && middle - bottom < top - middle
    ensures var len := middle - bottom;
      Rotate(Swapped(s, bottom, top - len, len), bottom, middle, top - len) == Rotate(s, bottom, middle, top)
  {
    hide Rotate, Swapped;
    var len := middle - bottom;
    var a, x, m, y, d := s[..bottom], s[bottom..middle], s[middle..top - len], s[top - len..top], s[top..];
    FivePieces(s, bottom, middle, top - len, top);
    BottomBlocks(a, x, m, y, d);
  }

  lemma BottomBlocks<T>(a: seq<T>, x: seq<T>, m: seq<T>, y: seq<T>, d: seq<T>)
    requires |x| == |y|
    ensures var s := a + x + m + y + d;
      Rotate(Swapped(s, |a|, |a| + |x| + |m|, |x|), |a|, |a| + |x|, |a| + |x| + |m|)
      == Rotate(s, |a|, |a| + |x|, |a| + |x| + |m| + |y|)
  {
    hide Rotate, Swapped;
    SwapBlocksOf(a, x, m, y, d);
    RotateBlocks(a, y, m, x + d);
    RotateBlocks(a, x, m + y, d);
    assert a + y + m + (x + d) == a + y + m + x + d;
    assert a + x + (m + y) + d == a + x + m + y + d;
    assert a + m + y + (x + d) == a + (m + y) + x + d;
  }

  lemma ShortTop<T>(s: seq<T>, bottom: nat, middle: nat, top: nat)
    requires bottom < middle < top <= |s| && top - middle <= middle - bottom
    ensures var len := top - middle;
      Rotate(Swapped(s, bottom, middle, len), bottom + len, middle, top) == Rotate(s, bottom, middle, top)
  {
    hide Rotate, Swapped;
    var len := top - middle;
    var a, x, m, y, d := s[..bottom], s[bottom..bottom + len], s[bottom + len..middle], s[middle..top], s[top..];
    FivePieces(s, bottom, bottom + len, middle, top);
    TopBlocks(a, x, m, y, d);
  }

  lemma TopBlocks<T>(a: seq<T>, x: seq<T>, m: seq<T>, y: seq<T>, d: seq<T>)
    requires |x| == |y|
    ensures var s := a + x + m + y + d;
      Rotate(Swapped(s, |a|, |a| + |x| + |m|, |x|), |a| + |x|, |a| + |x| + |m|, |a| + |x| + |m| + |y|)
      == Rotate(s, |a|, |a| + |x| + |m|, |a| + |x| + |m| + |y|)
  {
    hide Rotate, Swapped;
    SwapBlocksOf(a, x, m, y, d);
    RotateBlocks(a + y, m, x, d);
    RotateBlocks(a, x + m, y, d);
    assert a + (x + m) + y + d == a + x + m + y + d;
    assert a + y + (x + m) + d == a + y + x + m + d;
  }

  // ----- what a call keeps

  // The elements from start to optind are read: options, then the others skipped
  // so far, then options since.  With p, what reading on adds, they make up w.
  ghost predicate MakesUp(w: Parsed, done: seq<Result>, s: seq<string>, start: nat, first: nat, last: nat,
                          optind: nat, p: Parsed)
  {
    && start <= first <= last <= optind <= |s|
    && w.options == s[start..first] + s[last..optind] + p.options
    && w.others == s[first..last] + p.others
    && w.results == done + p.results
  }

  ghost predicate Reading(cfg: Config, w: Parsed, done: seq<Result>, s: seq<string>,
                          start: nat, first: nat, last: nat, optind: nat, text: string)
  {
    optind <= |s| && MakesUp(w, done, s, start, first, last, optind, Parse(cfg, s[optind..], text))
  }

  // The end of the scan: options, then others, with the border at split.
  ghost predicate Arranged(w: Parsed, done: seq<Result>, s: seq<string>, start: nat, split: nat) {
    && start <= split <= |s| && w.results == done && s[start..split] == w.options && s[split..] == w.others
  }

  lemma ReadingStarts(cfg: Config, s: seq<string>, start: nat)
    requires start <= |s|
    ensures Reading(cfg, Parse(cfg, s[start..], ""), [], s, start, start, start, start, "")
  {
  }

  // Options read since the last others move before them.
  lemma Gather(cfg: Config, w: Parsed, done: seq<Result>, s: seq<string>, start: nat, first: nat, last: nat,
               optind: nat)
    requires Reading(cfg, w, done, s, start, first, last, optind, "")
    ensures var s' := Rotate(s, first, last, optind);
      Reading(cfg, w, done, s', start, first + optind - last, optind, optind, "") && s'[..start] == s[..start]
    ensures first == last ==> Reading(cfg, w, done, s, start, optind, optind, optind, "")
  {
    hide Parse;
    var s' := Rotate(s, first, last, optind);
    var m := first + optind - last;
    assert s'[..start] == s[..start] && s'[start..m] == s[start..first] + s[last..optind];
    assert s'[m..optind] == s[first..last] && s'[optind..] == s[optind..];
    hide Rotate;
    assert s'[optind..optind] == [] && s'[start..m] + [] == s'[start..m];
    if first == last {
      assert s[start..optind] == s[start..first] + s[last..optind] && s[optind..optind] == [];
      assert s[start..optind] + [] == s[start..optind];
    }
  }

  lemma SkipOther(cfg: Config, w: Parsed, done: seq<Result>, s: seq<string>, start: nat, first: nat, mid: nat)
    requires Reading(cfg, w, done, s, start, first, mid, mid, "") && mid < |s| && IsNonOption(s[mid])
    ensures Reading(cfg, w, done, s, start, first, mid + 1, mid + 1, "")
  {
    var rest := s[mid..];
    assert rest[1..] == s[mid + 1..];
    var p := Parse(cfg, s[mid + 1..], "");
    assert Parse(cfg, rest, "") == After(p, [], [s[mid]], []);
    assert s[first..mid + 1] == s[first..mid] + [s[mid]];
    assert s[mid..mid] == [] && s[mid + 1..mid + 1] == [];
    assert [] + p.options == p.options && [] + p.results == p.results;
    assert (s[first..mid] + [s[mid]]) + p.others == s[first..mid] + ([s[mid]] + p.others);
  }

  lemma EndMarker(cfg: Config, w: Parsed, done: seq<Result>, s: seq<string>, start: nat, first: nat, mid: nat)
    requires Reading(cfg, w, done, s, start, first, mid, mid, "") && mid < |s| && s[mid] == "--"
    ensures var s' := Rotate(s, first, mid, mid + 1);
      Arranged(w, done, s', start, first + 1) && s'[..start] == s[..start]
    ensures first == mid ==> Arranged(w, done, s, start, mid + 1)
  {
    assert Parse(cfg, s[mid..], "") == Parsed(["--"], s[mid + 1..], []) by {
      assert s[mid..][1..] == s[mid + 1..];
    }
    assert w.options == s[start..first] + ["--"] && w.others == s[first..mid] + s[mid + 1..] && w.results == done by {
      assert s[mid..mid] == [] && done + [] == done && s[start..first] + [] + ["--"] == s[start..first] + ["--"];
    }
    hide Parse, Reading;
    MarkerMoves(s, start, first, mid);
    if first == mid {
      assert s[start..mid + 1] == s[start..first] + ["--"] && s[first..mid] + s[mid + 1..] == s[mid + 1..];
    }
  }

  lemma MarkerMoves(s: seq<string>, start: nat, first: nat, mid: nat)
    requires start <= first <= mid < |s|
    ensures var s' := Rotate(s, first, mid, mid + 1);
      s'[..start] == s[..start] && s'[start..first + 1] == s[start..first] + [s[mid]]
      && s'[first + 1..] == s[first..mid] + s[mid + 1..]
  {
    assert s[mid..mid + 1] == [s[mid]];
  }

  lemma AllRead(cfg: Config, w: Parsed, done: seq<Result>, s: seq<string>, start: nat, first: nat, mid: nat)
    requires Reading(cfg, w, done, s, start, first, mid, mid, "") && mid == |s|
    ensures Arranged(w, done, s, start, first)
  {
  }

  lemma BeginOption(cfg: Config, w: Parsed, done: seq<Result>, s: seq<string>, start: nat, first: nat, mid: nat)
    requires Reading(cfg, w, done, s, start, first, mid, mid, "")
    requires mid < |s| && !IsNonOption(s[mid]) && s[mid] != "--"
    ensures Reading(cfg, w, done, s, start, first, mid, mid, OptionText(cfg, s[mid]))
  {
  }

  // Decoding one option of an element takes its part out of what is left to read.
  lemma DecodeOne(cfg: Config, w: Parsed, done: seq<Result>, s: seq<string>,
                  start: nat, first: nat, last: nat, optind: nat, text: string, d: Decoded)
    requires Reading(cfg, w, done, s, start, first, last, optind, text)
    requires optind < |s| && text != "" && |s[optind]| >= 2
    requires d == Decode(cfg, s[optind], text, NextElement(s[optind..]))
    ensures optind + d.advance <= |s|
    ensures Reading(cfg, w, done + [d.result], s, start, first, last, optind + d.advance, d.nextchar)
  {
    hide Parse, Decode, MakesUp, After;
    var rest := s[optind..];
    var k := optind + d.advance;
    assert rest[0] == s[optind];
    ParseOne(cfg, rest, text, d);
    assert rest[d.advance..] == s[k..] && rest[..d.advance] == s[optind..k];
    TakeOne(w, done, s, start, first, last, optind, d.advance, Parse(cfg, s[k..], d.nextchar), d.result);
  }

  lemma TakeOne(w: Parsed, done: seq<Result>, s: seq<string>, start: nat, first: nat, last: nat, optind: nat,
                k: nat, p: Parsed, r: Result)
    requires optind + k <= |s|
    requires MakesUp(w, done, s, start, first, last, optind, After(p, s[optind..optind + k], [], [r]))
    ensures MakesUp(w, done + [r], s, start, first, last, optind + k, p)
  {
  }

  lemma ParseOne(cfg: Config, rest: seq<string>, text: string, d: Decoded)
    requires rest != [] && text != "" && |rest[0]| >= 2 && d == Decode(cfg, rest[0], text, NextElement(rest))
    ensures d.advance <= |rest|
    ensures Parse(cfg, rest, text) ==
            After(Parse(cfg, rest[d.advance..], d.nextchar), rest[..d.advance], [], [d.result])
  {
  }

  class Scanner {
    const cfg: Config
    const argv: array<string>
    var optind: nat
    var nextchar: string
    var firstNonopt: nat
    var lastNonopt: nat
    var initialized: bool
    ghost var start: nat  // where the scan began

    // Only the default ordering is modelled, and no "W;" in the option string.
    ghost predicate Valid()
      reads this, argv
    {
      && argv.Length >= 1 && optind <= argv.Length
      && (cfg.optstring == "" || (cfg.optstring[0] != '-' && cfg.optstring[0] != '+'))
      && (var w := Index(cfg.optstring, 'W'); w + 1 < |cfg.optstring| ==> cfg.optstring[w + 1] != ';')
      && (!initialized ==> nextchar == "")
      && (initialized ==> 1 <= start <= firstNonopt <= lastNonopt <= optind)
      && (nextchar != "" ==> optind < argv.Length && !IsNonOption(argv[optind]))
    }

    constructor (config: Config, args: array<string>)
      requires args.Length >= 1
      requires config.optstring == "" || (config.optstring[0] != '-' && config.optstring[0] != '+')
      requires var w := Index(config.optstring, 'W'); w + 1 < |config.optstring| ==> config.optstring[w + 1] != ';'
      ensures Valid() && cfg == config && argv == args && !initialized && optind == 1
    {
      cfg, argv := config, args;
      optind, nextchar, firstNonopt, lastNonopt, initialized, start := 1, "", 0, 0, false, 1;
    }

    ghost function Start(): nat
      reads this
    {
      if !initialized then (if optind == 0 then 1 else optind) else start
    }

    // What has been sorted and returned so far, with what is still to be read,
    // makes up the parse w of the whole command line.
    ghost predicate OnTrack(w: Parsed, done: seq<Result>)
      reads this, argv
    {
      if !initialized then Start() <= argv.Length && w == Parse(cfg, argv[Start()..], "") && done == []
      else Reading(cfg, w, done, argv[..], start, firstNonopt, lastNonopt, optind, nextchar)
    }

    method SwapBlocks(a: nat, b: nat, len: nat)
      requires a + len <= b && b + len <= argv.Length
      modifies argv
      ensures argv[..] == Swapped(old(argv[..]), a, b, len)
    {
      hide Swapped;
      ghost var s := argv[..];
      var i: nat := 0;
      SwapNone(s, a, b);
      while i < len
        invariant i <= len && argv[..] == Swapped(s, a, b, i)
      {
        SwapOneMore(s, a, b, i);
        var tem := argv[a + i];
        argv[a + i] := argv[b + i];
        argv[b + i] := tem;
        i := i + 1;
      }
    }

    // The skipped non-options and the options after them change places.
    method Exchange()
      requires firstNonopt <= lastNonopt <= optind <= argv.Length
      modifies this`firstNonopt, this`lastNonopt, argv
      ensures argv[..] == Rotate(old(argv[..]), old(firstNonopt), old(lastNonopt), optind)
      ensures firstNonopt == old(firstNonopt) + optind - old(lastNonopt) && lastNonopt == optind
    {
      var bottom: nat, middle: nat, top: nat := firstNonopt, lastNonopt, optind;
      hide Swapped, Rotate;
      ghost var goal := Rotate(argv[..], bottom, middle, top);
      while top > middle && middle > bottom
        invariant bottom <= middle <= top <= argv.Length
        invariant Rotate(argv[..], bottom, middle, top) == goal
        invariant firstNonopt == old(firstNonopt) && lastNonopt == old(lastNonopt)
        decreases top - bottom
      {
        ghost var s := argv[..];
        if top - middle > middle - bottom {
          var len := middle - bottom;
          ShortBottom(s, bottom, middle, top);
          SwapBlocks(bottom, top - len, len);
          top := top - len;
        } else {
          var len := top - middle;
          ShortTop(s, bottom, middle, top);
          SwapBlocks(bottom, middle, len);
          bottom := bottom + len;
        }
      }
      NothingToRotate(argv[..], bottom, middle, top);
      firstNonopt := firstNonopt + optind - lastNonopt;
      lastNonopt := optind;
    }

    // The element after the one being read, if argv has one.
    function Next(): Option<string>
      requires optind < argv.Length
      reads this, argv
    {
      if optind + 1 < argv.Length then Some(argv[optind + 1]) else None
    }

    method ShortOption() returns (r: Result)
      requires optind < argv.Length && nextchar != ""
      modifies this`optind, this`nextchar
      ensures var d := DecodeShort(cfg, old(nextchar), old(Next()));
        nextchar == d.nextchar && optind == old(optind) + d.advance && r == d.result
    {
      var c := nextchar[0];
      nextchar := nextchar[1..];
      var temp := Index(cfg.optstring, c);
      if nextchar == "" {
        optind := optind + 1;
      }
      if temp == |cfg.optstring| || c == ':' {
        return Found('?' as int, None, None);
      }
      var optarg, code := None, c as int;
      if temp + 1 < |cfg.optstring| && cfg.optstring[temp + 1] == ':' {
        if temp + 2 < |cfg.optstring| && cfg.optstring[temp + 2] == ':' {
          if nextchar != "" {
            optarg := Some(nextchar);
            optind := optind + 1;
          }
        } else {
          if nextchar != "" {
            optarg := Some(nextchar);
            optind := optind + 1;
          } else if optind == argv.Length {
            code := MissingArg(cfg);
          } else {
            optarg := Some(argv[optind]);
            optind := optind + 1;
          }
        }
        nextchar := "";
      }
      r := Found(code, optarg, None);
    }

    // Returns Done when the element is to be read as short options after all.
    method LongOption(table: seq<LongOption>) returns (r: Result)
      requires optind < argv.Length && |argv[optind]| >= 2 && nextchar != ""
      requires cfg.longopts == Some(table) && LooksLong(cfg, argv[optind])
      modifies this`optind, this`nextchar
      ensures var d := Decode(cfg, argv[old(optind)], old(nextchar), old(Next()));
        if r == Done then
          d == DecodeShort(cfg, old(nextchar), old(Next())) && nextchar == old(nextchar) && optind == old(optind)
        else nextchar == d.nextchar && optind == old(optind) + d.advance && r == d.result
    {
      var nameend := 0;
      while nameend < |nextchar| && nextchar[nameend] != '='
        invariant 0 <= nameend <= |nextchar| && Index(nextchar, '=') == nameend + Index(nextchar[nameend..], '=')
      {
        nameend := nameend + 1;
      }
      var text := nextchar;
      var m := FindLongOption(table, text[..nameend]);
      match m {
        case Ambiguous =>
          nextchar := "";
          optind := optind + 1;
          return Found('?' as int, None, None);
        case Matched(k) =>
          var optarg := None;
          optind := optind + 1;
          if nameend < |text| {
            if table[k].hasArg != 0 {
              optarg := Some(text[nameend + 1..]);
            } else if cfg.opterr {
              nextchar := "";
              return Found('?' as int, None, None);
            }
          } else if table[k].hasArg == 1 {
            if optind < argv.Length {
              optarg := Some(argv[optind]);
              optind := optind + 1;
            } else {
              nextchar := "";
              return Found(MissingArg(cfg), None, None);
            }
          }
          nextchar := "";
          return Found(if table[k].flag then 0 else table[k].val, optarg, Some(k));
        case NoMatch =>
          if !cfg.longOnly || argv[optind][1] == '-' || text[0] !in cfg.optstring {
            nextchar := "";
            optind := optind + 1;
            return Found('?' as int, None, None);
          }
          return Done;
      }
    }

    // Brings the options read since the last others before them.
    method GatherOthers(ghost w: Parsed, ghost done: seq<Result>)
      requires Valid() && initialized && nextchar == "" && OnTrack(w, done)
      modifies this`firstNonopt, this`lastNonopt, argv
      ensures argv[..start] == old(argv[..start]) && start <= firstNonopt <= optind
      ensures Reading(cfg, w, done, argv[..], start, firstNonopt, optind, optind, "")
    {
      hide Parse, Rotate, Reading;
      lastNonopt := Min(lastNonopt, optind);
      firstNonopt := Min(firstNonopt, optind);
      Gather(cfg, w, done, argv[..], start, firstNonopt, lastNonopt, optind);
      if firstNonopt != lastNonopt && lastNonopt != optind {
        Exchange();
      } else if lastNonopt != optind {
        firstNonopt := optind;
      }
    }

    // The marker is an option, everything after it is not.
    method TakeMarker(ghost w: Parsed, ghost done: seq<Result>)
      requires start <= firstNonopt <= lastNonopt == optind < argv.Length && argv[optind] == "--"
      requires Reading(cfg, w, done, argv[..], start, firstNonopt, optind, optind, "")
      modifies this`firstNonopt, this`lastNonopt, this`optind, argv
      ensures argv[..start] == old(argv[..start])
      ensures firstNonopt <= lastNonopt == optind == argv.Length
      ensures Arranged(w, done, argv[..], start, firstNonopt)
    {
      hide Parse, Rotate, Reading, Arranged;
      EndMarker(cfg, w, done, argv[..], start, firstNonopt, optind);
      optind := optind + 1;
      if firstNonopt != lastNonopt && lastNonopt != optind {
        Exchange();
      } else if firstNonopt == lastNonopt {
        firstNonopt := optind;
      }
      lastNonopt := argv.Length;
      optind := argv.Length;
    }

    // Moves on to the next element.  When there is none, optind is left at the
    // first of the others.
    method Advance(ghost w: Parsed, ghost done: seq<Result>) returns (more: bool)
      requires Valid() && initialized && nextchar == "" && OnTrack(w, done)
      modifies this`optind, this`nextchar, this`firstNonopt, this`lastNonopt, argv
      ensures argv[..start] == old(argv[..start])
      ensures if more then Valid() && nextchar != "" && OnTrack(w, done)
              else Arranged(w, done, argv[..], start, optind)
    {
      hide Parse, OptionText, Reading, Arranged;
      GatherOthers(w, done);
      lastNonopt := SkipOthers(w, done);
      if optind != argv.Length && argv[optind] == "--" {
        TakeMarker(w, done);
      } else if optind == argv.Length {
        AllRead(cfg, w, done, argv[..], start, firstNonopt, optind);
      }
      if optind == argv.Length {
        if firstNonopt != lastNonopt {
          optind := firstNonopt;
        }
        return false;
      }
      BeginOption(cfg, w, done, argv[..], start, firstNonopt, optind);
      nextchar := OptionText(cfg, argv[optind]);
      return true;
    }

    // Skips further others; returns where they end.
    method SkipOthers(ghost w: Parsed, ghost done: seq<Result>) returns (last: nat)
      requires start <= firstNonopt <= optind <= argv.Length
      requires Reading(cfg, w, done, argv[..], start, firstNonopt, optind, optind, "")
      modifies this`optind
      ensures last == optind && start <= firstNonopt <= optind <= argv.Length
      ensures Reading(cfg, w, done, argv[..], start, firstNonopt, optind, optind, "")
      ensures optind < argv.Length ==> !IsNonOption(argv[optind])
    {
      hide Parse, Reading;
      while optind < argv.Length && IsNonOption(argv[optind])
        invariant start <= firstNonopt <= optind <= argv.Length
        invariant Reading(cfg, w, done, argv[..], start, firstNonopt, optind, optind, "")
      {
        SkipOther(cfg, w, done, argv[..], start, firstNonopt, optind);
        optind := optind + 1;
      }
      last := optind;
    }

    // The first call, or one after optind was set to zero.
    method Initialize(ghost w: Parsed, ghost done: seq<Result>)
      requires Valid() && !initialized && OnTrack(w, done)
      modifies this
      ensures Valid() && initialized && nextchar == "" && start == old(Start()) && OnTrack(w, done)
    {
      hide Parse, Reading;
      if optind == 0 {
        optind := 1;
      }
      firstNonopt, lastNonopt := optind, optind;
      nextchar := "";
      initialized := true;
      start := optind;
      ReadingStarts(cfg, argv[..], start);
      assert argv[..][start..] == argv[start..];
    }

    lemma OnlyShort(e: string, text: string, next: Option<string>)
      requires |e| >= 2 && text != "" && !LooksLong(cfg, e)
      ensures Decode(cfg, e, text, next) == DecodeShort(cfg, text, next)
    {
    }

    // One option out of the element at optind.
    method DecodeElement(ghost w: Parsed, ghost done: seq<Result>) returns (r: Result)
      requires Valid() && initialized && nextchar != "" && OnTrack(w, done)
      modifies this`optind, this`nextchar
      ensures r != Done && Valid() && OnTrack(w, done + [r])
    {
      hide Parse, Decode, DecodeShort, Reading;
      ghost var e, next := argv[optind], Next();
      assert NextElement(argv[..][optind..]) == next;
      DecodeOne(cfg, w, done, argv[..], start, firstNonopt, lastNonopt, optind, nextchar,
                Decode(cfg, e, nextchar, next));
      r := Done;
      if cfg.longopts.Some? && LooksLong(cfg, argv[optind]) {
        r := LongOption(cfg.longopts.value);
      } else {
        OnlyShort(e, nextchar, next);
      }
      if r == Done {
        r := ShortOption();
      }
    }

    // One call: the next option, or Done.
    method GetoptInternal(ghost w: Parsed, ghost done: seq<Result>) returns (r: Result)
      requires Valid() && OnTrack(w, done)
      modifies this, argv
      ensures initialized && start == old(Start()) <= argv.Length && argv[..start] == old(argv[..Start()])
      ensures if r == Done then Arranged(w, done, argv[..], start, optind)
              else Valid() && OnTrack(w, done + [r])
    {
      hide Parse, Decode, Reading, Arranged;
      if optind == 0 || !initialized {
        Initialize(w, done);
      }
      if nextchar == "" {
        var more := Advance(w, done);
        if !more {
          return Done;
        }
      }
      r := DecodeElement(w, done);
    }

    // The callers' loop: afterwards the options and what belongs to them come
    // first, the other elements follow, each in their original order, and optind
    // is the border; the calls returned what reading from left to right gives.
    method ScanAll() returns (results: seq<Result>)
      requires Valid() && !initialized
      modifies this, argv
      ensures argv[..old(Start())] == old(argv[..Start()])
      ensures var p := Parse(cfg, old(argv[Start()..]), "");
        && results == p.results
        && old(Start()) <= optind <= argv.Length
        && argv[old(Start())..optind] == p.options
        && argv[optind..] == p.others
    {
      hide Parse, Reading;
      results := [];
      ghost var w := Parse(cfg, argv[Start()..], "");
      var more := true;
      while more
        invariant Start() == old(Start()) <= argv.Length && argv[..Start()] == old(argv[..Start()])
        invariant more ==> Valid() && OnTrack(w, results)
        invariant |results| <= |w.results|
        invariant !more ==> Arranged(w, results, argv[..], Start(), optind)
        decreases more, |w.results| - |results|
      {
        var r := GetoptInternal(w, results);
        if r == Done {
          more := false;
        } else {
          results := results + [r];
          TrackBounds(w, results);
        }
      }
    }

    lemma TrackBounds(w: Parsed, done: seq<Result>)
      requires initialized && OnTrack(w, done)
      ensures |done| <= |w.results|
    {
    }
  }
}
