// Looking up an abbreviated long option (src/gnu_getopt.c).

module LongOptions {
  // flag says whether the table entry stores val instead of returning it.
  datatype LongOption = LongOption(name: string, hasArg: nat, flag: bool, val: int)

  datatype Match = NoMatch | Ambiguous | Matched(index: nat)

  // What the documentation promises: an exact name wins wherever it stands, and
  // otherwise the text must be the beginning of exactly one name.
  ghost predicate IsMatch(table: seq<LongOption>, text: string, m: Match) {
    match m
    case NoMatch => forall i :: 0 <= i < |table| ==> !(text <= table[i].name)
    case Ambiguous =>
      && (forall i :: 0 <= i < |table| ==> table[i].name != text)
      && exists i, j :: 0 <= i < j < |table| && text <= table[i].name && text <= table[j].name
    case Matched(k) =>
      && k < |table|
      && if table[k].name == text then forall i :: 0 <= i < k ==> table[i].name != text
         else text <= table[k].name && forall i :: 0 <= i < |table| && i != k ==> !(text <= table[i].name)
  }

  // The loop over the table, from entry i on, with what it has found so far.
  function Search(table: seq<LongOption>, text: string, i: nat, found: Match): (m: Match)
    requires i <= |table| && (found.Matched? ==> found.index < |table|)
    ensures m.Matched? ==> m.index < |table|
    decreases |table| - i
  {
    if i == |table| then found
    else if !(text <= table[i].name) then Search(table, text, i + 1, found)
    else if |text| == |table[i].name| then Matched(i)
    else Search(table, text, i + 1, if found == NoMatch then Matched(i) else Ambiguous)
  }

  // What the entries before i amount to when none of them is exact.
  ghost predicate FoundSoFar(table: seq<LongOption>, text: string, i: nat, found: Match) {
    && i <= |table|
    && (forall j :: 0 <= j < i ==> table[j].name != text)
    && match found
       case NoMatch => forall j :: 0 <= j < i ==> !(text <= table[j].name)
       case Ambiguous => exists j, k :: 0 <= j < k < i && text <= table[j].name && text <= table[k].name
       case Matched(k) =>
         k < i && text <= table[k].name && forall j :: 0 <= j < i && j != k ==> !(text <= table[j].name)
  }

  lemma Passed(table: seq<LongOption>, text: string, i: nat, found: Match)
    requires FoundSoFar(table, text, i, found) && i < |table| && !(text <= table[i].name)
    ensures FoundSoFar(table, text, i + 1, found)
  {
  }

  lemma Starts(table: seq<LongOption>, text: string, i: nat, found: Match)
    requires FoundSoFar(table, text, i, found)
    requires i < |table| && text <= table[i].name && |text| != |table[i].name|
    ensures FoundSoFar(table, text, i + 1, if found == NoMatch then Matched(i) else Ambiguous)
  {
  }

  lemma Exact(table: seq<LongOption>, text: string, i: nat, found: Match)
    requires FoundSoFar(table, text, i, found)
    requires i < |table| && text <= table[i].name && |text| == |table[i].name|
    ensures IsMatch(table, text, Matched(i))
  {
  }

  lemma Ended(table: seq<LongOption>, text: string, found: Match)
    requires FoundSoFar(table, text, |table|, found)
    ensures IsMatch(table, text, found)
  {
  }

  lemma {:induction false} SearchMatches(table: seq<LongOption>, text: string, i: nat, found: Match)
    requires FoundSoFar(table, text, i, found)
    ensures IsMatch(table, text, Search(table, text, i, found))
    decreases |table| - i
  {
    if i < |table| {
      hide FoundSoFar, IsMatch;
      if !(text <= table[i].name) {
        Passed(table, text, i, found);
        SearchMatches(table, text, i + 1, found);
      } else if |text| != |table[i].name| {
        Starts(table, text, i, found);
        SearchMatches(table, text, i + 1, if found == NoMatch then Matched(i) else Ambiguous);
      } else {
        Exact(table, text, i, found);
      }
    } else {
      Ended(table, text, found);
    }
  }

  function Lookup(table: seq<LongOption>, text: string): (m: Match)
    ensures m.Matched? ==> m.index < |table|
  {
    Search(table, text, 0, NoMatch)
  }

  // The lookup finds the promised match, and there is no other.
  lemma LookupIsTheMatch(table: seq<LongOption>, text: string, m: Match)
    ensures IsMatch(table, text, m) <==> m == Lookup(table, text)
  {
    SearchMatches(table, text, 0, NoMatch);
  }

  method FindLongOption(table: seq<LongOption>, text: string) returns (m: Match)
    ensures m == Lookup(table, text) && IsMatch(table, text, m)
  {
    var pfound: Match := NoMatch;
    var exact, ambig := false, false;
    var i := 0;
    while i < |table|
      invariant 0 <= i <= |table| && !exact && !pfound.Ambiguous?
      invariant (ambig ==> pfound.Matched?) && (pfound.Matched? ==> pfound.index < |table|)
      invariant Lookup(table, text) == Search(table, text, i, if ambig then Ambiguous else pfound)
    {
      if text <= table[i].name {
        if |text| == |table[i].name| {
          pfound, exact := Matched(i), true;
          break;
        } else if pfound == NoMatch {
          pfound := Matched(i);
        } else {
          ambig := true;
        }
      }
      i := i + 1;
    }
    m := if ambig && !exact then Ambiguous else pfound;
    LookupIsTheMatch(table, text, m);
  }
}
