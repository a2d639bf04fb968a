/**
 Slash-separated paths and the string operations that `getFullPath`, `resolvePathID` and `pathWithinShare` use on them.
 */
module Paths {
  import opened Strings

  ghost predicate ValidName(name: string) {
    name != "" && '/' !in name
  }

  ghost predicate ValidNames(names: seq<string>) {
    forall i :: 0 <= i < |names| ==> ValidName(names[i])
  }

  /** The names, each with a slash before it. */
  function Slashed(names: seq<string>): string {
    if names == [] then "" else "/" + names[0] + Slashed(names[1..])
  }

  /** `string_agg(name, '/')`. */
  function Join(names: seq<string>): string {
    if names == [] then "" else if |names| == 1 then names[0] else names[0] + "/" + Join(names[1..])
  }

  lemma {:induction false} SlashedIsJoin(names: seq<string>)
    requires names != []
    ensures Slashed(names) == "/" + Join(names)
  {
    if |names| > 1 {
      SlashedIsJoin(names[1..]);
    } else {
      assert Slashed(names[1..]) == "";
    }
  }

  lemma {:induction false} SlashedConcat(a: seq<string>, b: seq<string>)
    ensures Slashed(a + b) == Slashed(a) + Slashed(b)
  {
    if a == [] {
      assert a + b == b;
    } else {
      assert (a + b)[1..] == a[1..] + b;
      SlashedConcat(a[1..], b);
    }
  }

  // Go's TrimPrefix, TrimSuffix, HasPrefix and Trim, and SQL's trim and string_to_array.

  function TrimPrefix(s: string, prefix: string): string {
    if prefix <= s then s[|prefix|..] else s
  }

  function TrimSlash(s: string): string {
    if s != "" && s[|s| - 1] == '/' then s[..|s| - 1] else s
  }

  function TrimLeft(s: string): string {
    if s != "" && s[0] == '/' then TrimLeft(s[1..]) else s
  }

  function TrimRight(s: string): string {
    if s != "" && s[|s| - 1] == '/' then TrimRight(s[..|s| - 1]) else s
  }

  function Trim(s: string): string {
    TrimRight(TrimLeft(s))
  }

  /** The length of the part before the first slash. */
  function ToSlash(s: string): (k: nat)
    ensures k <= |s| && '/' !in s[..k] && (k < |s| ==> s[k] == '/')
  {
    if s == "" || s[0] == '/' then 0
    else
      var k := 1 + ToSlash(s[1..]);
      assert s[..k] == [s[0]] + s[1..][..k - 1];
      k
  }

  function StringToArray(s: string): seq<string> {
    if s == "" then [] else Split(s, '/')
  }

  lemma {:induction false} FirstName(name: string, rest: string)
    requires '/' !in name && (rest == "" || rest[0] == '/')
    ensures ToSlash(name + rest) == |name|
  {
    if name == "" {
      assert name + rest == rest;
    } else {
      FirstName(name[1..], rest);
      assert (name + rest)[1..] == name[1..] + rest;
    }
  }

  lemma {:induction false} SplitJoin(names: seq<string>)
    requires names != [] && forall i :: 0 <= i < |names| ==> '/' !in names[i]
    ensures Split(Join(names), '/') == names
  {
    if |names| == 1 {
      SplitWhole(names[0], '/');
    } else {
      SplitJoin(names[1..]);
      SplitFirst(names[0], Join(names[1..]), '/');
    }
  }

  lemma {:induction false} JoinEnds(names: seq<string>)
    requires names != [] && ValidNames(names)
    ensures var s := Join(names); s != "" && s[0] != '/' && s[|s| - 1] != '/'
  {
    if |names| > 1 {
      JoinEnds(names[1..]);
    }
  }

  /** Slashes at either end of a joined path are what trimming takes off. */
  lemma TrimJoin(names: seq<string>)
    requires names != [] && ValidNames(names)
    ensures Trim(Slashed(names)) == Join(names) && Trim(Join(names)) == Join(names)
  {
    SlashedIsJoin(names);
    JoinEnds(names);
    var path, joined := Slashed(names), Join(names);
    assert path[1..] == joined && path[0] == '/';
    assert TrimLeft(joined) == joined && TrimRight(joined) == joined;
    assert TrimLeft(path) == TrimLeft(path[1..]);
  }

  // The share test.

  function PathWithinShare(sharePath: string, filePath: string): bool {
    var share := TrimSlash(sharePath);
    share == "" || filePath == share || share + "/" <= filePath
  }

  /** On paths made of proper names, the string test is the prefix order on the names. */
  lemma {:induction false} PrefixTest(a: seq<string>, b: seq<string>)
    requires ValidNames(a) && ValidNames(b)
    ensures (Slashed(b) == Slashed(a) || Slashed(a) + "/" <= Slashed(b)) <==> a <= b
  {
    if a == [] {
      assert b != [] ==> Slashed(b)[0] == '/';
      assert Slashed(a) + "/" == "/";
    } else if b != [] {
      PrefixTest(a[1..], b[1..]);
      assert Slashed(a) == "/" + (a[0] + Slashed(a[1..])) && Slashed(b) == "/" + (b[0] + Slashed(b[1..]));
      assert a == [a[0]] + a[1..] && b == [b[0]] + b[1..];
      StepTest(a[0], Slashed(a[1..]), b[0], Slashed(b[1..]));
    }
  }

  lemma StepTest(n: string, a: string, m: string, b: string)
    requires '/' !in n && '/' !in m && (a == "" || a[0] == '/') && (b == "" || b[0] == '/')
    ensures var s, t := "/" + (n + a), "/" + (m + b);
            (t == s || s + "/" <= t) <==> n == m && (b == a || a + "/" <= b)
  {
    if "/" + (n + a) == "/" + (m + b) || ("/" + (n + a)) + "/" <= "/" + (m + b) {
      NameRecovered(n, a, m, b);
    }
    if n == m {
      assert "/" + (n + a) == ("/" + n) + a && "/" + (m + b) == ("/" + n) + b;
      SameFront("/" + n, a, b);
    }
  }

  lemma SameFront(front: string, a: string, b: string)
    ensures front + a == front + b <==> a == b
    ensures (front + a) + "/" <= front + b <==> a + "/" <= b
  {
    assert a == (front + a)[|front|..] && b == (front + b)[|front|..];
    assert (front + a) + "/" == front + (a + "/");
    if front + (a + "/") <= front + b {
      assert (front + (a + "/"))[|front|..] == a + "/";
      assert (front + b)[..|front + (a + "/")|][|front|..] == b[..|a + "/"|];
    }
  }

  /** The first name can be read off a path, so paths of which one continues the other begin with the same name. */
  lemma NameRecovered(n: string, a: string, m: string, b: string)
    requires '/' !in n && '/' !in m && (a == "" || a[0] == '/') && (b == "" || b[0] == '/')
    requires "/" + (n + a) == "/" + (m + b) || ("/" + (n + a)) + "/" <= "/" + (m + b)
    ensures n == m
  {
    var s := m + b;
    FirstName(m, b);
    assert ("/" + s)[1..] == s && ("/" + (n + a))[1..] == n + a;
    assert n + a == s || (n + a) + "/" <= s;
    assert s[..|n|] == n && (|s| == |n| || s[|n|] == '/');
    FirstName(n, s[|n|..]);
    assert s == n + s[|n|..];
  }

  lemma SlashedEnds(names: seq<string>)
    requires ValidNames(names)
    ensures TrimSlash(Slashed(names)) == Slashed(names) && (Slashed(names) == "" <==> names == [])
  {
    if names != [] {
      SlashedIsJoin(names);
      JoinEnds(names);
    }
  }

  lemma WithinShareIsPrefix(a: seq<string>, b: seq<string>)
    requires ValidNames(a) && ValidNames(b)
    ensures PathWithinShare(Slashed(a), Slashed(b)) <==> a <= b
  {
    SlashedEnds(a);
    PrefixTest(a, b);
  }
}
