/**
 Splitting strings: Go's `strings.Split` for a separator of one character, which SQL's `string_to_array` agrees with.
 */
module Strings {

  function Split(s: string, sep: char): (pieces: seq<string>)
    ensures pieces != []
    ensures |pieces| >= 2 <==> sep in s
    decreases |s|
  {
    if s == "" then [""]
    else
      var rest := Split(s[1..], sep);
      if s[0] == sep then [""] + rest else [[s[0]] + rest[0]] + rest[1..]
  }

  lemma {:induction false} SplitWhole(s: string, sep: char)
    requires sep !in s
    ensures Split(s, sep) == [s]
  {
    if s != "" {
      SplitWhole(s[1..], sep);
      assert s == [s[0]] + s[1..];
    }
  }

  lemma {:induction false} SplitFirst(first: string, rest: string, sep: char)
    requires sep !in first
    ensures Split(first + [sep] + rest, sep) == [first] + Split(rest, sep)
  {
    var s := first + [sep] + rest;
    if first == "" {
      assert s[1..] == rest;
    } else {
      SplitFirst(first[1..], rest, sep);
      assert s[1..] == first[1..] + [sep] + rest;
      assert first == [first[0]] + first[1..];
    }
  }
}
