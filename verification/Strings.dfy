/** Comma-separated text, as `strings.Join` writes it and `strings.Split` reads it. */
module Strings {

  function Join(parts: seq<string>): string
  {
    if parts == [] then "" else if |parts| == 1 then parts[0] else parts[0] + "," + Join(parts[1..])
  }

  function Split(s: string): (parts: seq<string>)
    ensures parts != []
  {
    if s == "" then [""]
    else
      var rest := Split(s[1..]);
      if s[0] == ',' then [""] + rest else [[s[0]] + rest[0]] + rest[1..]
  }

  predicate CommaFree(parts: seq<string>)
  {
    forall i | 0 <= i < |parts| :: ',' !in parts[i]
  }

  lemma {:induction false} SplitIsCommaFree(s: string)
    ensures CommaFree(Split(s))
  {
    if s != "" { SplitIsCommaFree(s[1..]); }
  }

  lemma {:induction false} SplitPart(part: string, rest: string)
    requires ',' !in part
    ensures Split(part) == [part]
    ensures Split(part + "," + rest) == [part] + Split(rest)
  {
    var text := part + "," + rest;
    if part == "" {
      assert text[1..] == rest;
    } else {
      SplitPart(part[1..], rest);
      assert text[1..] == part[1..] + "," + rest;
      assert part == [part[0]] + part[1..];
    }
  }

  lemma {:induction false} SplitUndoesJoin(parts: seq<string>)
    requires parts != [] && CommaFree(parts)
    ensures Split(Join(parts)) == parts
  {
    if |parts| == 1 {
      SplitPart(parts[0], "");
    } else {
      SplitUndoesJoin(parts[1..]);
      SplitPart(parts[0], Join(parts[1..]));
    }
  }

  /** Lists of the same length without commas that join to the same text are the same. */
  lemma JoinIsInjective(a: seq<string>, b: seq<string>)
    requires |a| == |b| && CommaFree(a) && CommaFree(b) && Join(a) == Join(b)
    ensures a == b
  {
    if a != [] {
      SplitUndoesJoin(a);
      SplitUndoesJoin(b);
    }
  }
}
