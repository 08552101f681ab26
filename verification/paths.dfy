/** The two path helpers of the parser (cfgparser.cpp): dropRootPrefix and
    dropNameAndRootPrefix, with QString::split on "/" modelled by Split. */
module Paths {

  /** dropRootPrefix: one leading '/' is removed. The empty string, whose
      first character QString::at would read out of range, is left unchanged. */
  function DropRootPrefix(s: string): (r: string)
    ensures |s| > 0 && s[0] == '/' ==> r == s[1..]
    ensures !(|s| > 0 && s[0] == '/') ==> r == s
  {
    if |s| > 0 && s[0] == '/' then s[1..] else s
  }

  /** The index of the first '/' at or after i, or |s|. */
  function SlashFrom(s: string, i: nat): (j: nat)
    requires i <= |s|
    ensures i <= j <= |s|
    ensures j < |s| ==> s[j] == '/'
    ensures forall k :: i <= k < j ==> s[k] != '/'
    decreases |s| - i
  {
    if i == |s| || s[i] == '/' then i else SlashFrom(s, i + 1)
  }

  /** QString::split("/"), keeping empty parts. */
  function Split(s: string): (parts: seq<string>)
    ensures |parts| >= 1
    ensures forall k :: 0 <= k < |parts| ==> '/' !in parts[k]
    decreases |s|
  {
    var j := SlashFrom(s, 0);
    assert '/' !in s[..j] by {
      forall k | 0 <= k < j ensures s[..j][k] != '/' { }
    }
    if j == |s| then [s] else [s[..j]] + Split(s[j + 1..])
  }

  /** Each part followed by "/", concatenated in order. */
  function SlashJoined(parts: seq<string>): string {
    if |parts| == 0 then "" else parts[0] + "/" + SlashJoined(parts[1..])
  }

  /** Appending one part to the list appends it and a slash to the text. */
  lemma {:induction false} SlashJoinedAppend(parts: seq<string>, p: string)
    ensures SlashJoined(parts + [p]) == SlashJoined(parts) + p + "/"
    decreases |parts|
  {
    if |parts| == 0 {
      assert parts + [p] == [p];
      assert SlashJoined([p]) == p + "/" + SlashJoined([]);
    } else {
      assert (parts + [p])[0] == parts[0];
      assert (parts + [p])[1..] == parts[1..] + [p];
      SlashJoinedAppend(parts[1..], p);
    }
  }

  /** Splitting loses nothing: the parts but the last, each followed by its
      slash, and then the last part, give the string back. */
  lemma {:induction false} SplitRebuilds(s: string)
    ensures var parts := Split(s);
            SlashJoined(parts[..|parts| - 1]) + parts[|parts| - 1] == s
    decreases |s|
  {
    var j := SlashFrom(s, 0);
    var parts := Split(s);
    if j == |s| {
      assert parts == [s];
      assert parts[..0] == [];
    } else {
      var head, tail := s[..j], s[j + 1..];
      var rest := Split(tail);
      SplitRebuilds(tail);
      var front, last := rest[..|rest| - 1], rest[|rest| - 1];
      assert parts[..|parts| - 1] == [head] + front && parts[|parts| - 1] == last by {
        assert parts == [head] + rest;
      }
      SlashJoinedCons(head, front);
      SplitAt(s, j);
      Regroup(head + "/", SlashJoined(front), last);
    }
  }

  lemma SlashJoinedCons(head: string, parts: seq<string>)
    ensures SlashJoined([head] + parts) == head + "/" + SlashJoined(parts)
  {
    assert ([head] + parts)[1..] == parts;
  }

  lemma SplitAt(s: string, j: nat)
    requires j < |s| && s[j] == '/'
    ensures s == s[..j] + "/" + s[j + 1..]
  {
  }

  lemma Regroup(a: string, b: string, c: string)
    ensures (a + b) + c == a + (b + c)
  {
  }

  /** A string without a slash splits into itself alone, and only such a string does. */
  lemma SplitSingle(s: string)
    ensures |Split(s)| == 1 <==> '/' !in s
    ensures '/' !in s ==> Split(s) == [s]
  {
    var j := SlashFrom(s, 0);
    if j < |s| {
      assert '/' in s;
      assert |Split(s)| == 1 + |Split(s[j + 1..])|;
    } else {
      assert forall k :: 0 <= k < |s| ==> s[k] != '/';
    }
  }

  /** The concatenation loop of dropNameAndRootPrefix: each of the first n
      parts followed by "/"; the guard on the slash always holds inside the
      loop, so a slash follows every part, the last one included. */
  method ConcatParts(parts: seq<string>, n: nat) returns (concat: string)
    requires n <= |parts|
    ensures concat == SlashJoined(parts[..n])
  {
    concat := "";
    var i := 0;
    while i < n
      invariant 0 <= i <= n
      invariant concat == SlashJoined(parts[..i])
    {
      concat := concat + parts[i];
      if i < n {
        concat := concat + "/";
      }
      SlashJoinedAppend(parts[..i], parts[i]);
      assert parts[..i + 1] == parts[..i] + [parts[i]];
      i := i + 1;
    }
  }

  /** dropNameAndRootPrefix: without the root slash, a path of one part is
      returned whole; otherwise every part but the last, each followed by "/". */
  function DropNameAndRootPrefix(s: string): (r: string) {
    var path := DropRootPrefix(s);
    var parts := Split(path);
    if |parts| == 1 then parts[0] else SlashJoined(parts[..|parts| - 1])
  }

  /** The same with the loop as written. */
  method DropNameAndRootPrefixLoop(s: string) returns (r: string)
    ensures r == DropNameAndRootPrefix(s)
  {
    var path := DropRootPrefix(s);
    var parts := Split(path);
    if |parts| == 1 {
      return parts[0];
    }
    r := ConcatParts(parts, |parts| - 1);
  }

  /** What dropNameAndRootPrefix keeps: with the root slash removed, a path
      without a slash is kept whole; any other path is cut right after its
      last slash, so the directory part keeps a trailing "/". */
  lemma DropNameSpec(s: string)
    ensures var path := DropRootPrefix(s);
            var r := DropNameAndRootPrefix(s);
            && ('/' !in path ==> r == path)
            && ('/' in path ==>
                  && |r| <= |path| && path[..|r|] == r
                  && |r| > 0 && r[|r| - 1] == '/'
                  && '/' !in path[|r|..])
  {
    var path := DropRootPrefix(s);
    var parts := Split(path);
    SplitSingle(path);
    if '/' in path {
      var r := DropNameAndRootPrefix(s);
      var front := parts[..|parts| - 1];
      var last := parts[|parts| - 1];
      SplitRebuilds(path);
      assert path == r + last;
      assert path[..|r|] == r;
      assert path[|r|..] == last;
      assert front == front[..|front| - 1] + [front[|front| - 1]];
      SlashJoinedAppend(front[..|front| - 1], front[|front| - 1]);
    }
  }

  /** A backup of "/etc/app.conf" goes under "etc/"; a bare name is kept. */
  lemma DropNameExample()
    ensures DropNameAndRootPrefix("/etc/app.conf") == "etc/"
    ensures DropNameAndRootPrefix("app.conf") == "app.conf"
  {
    var path := "etc/app.conf";
    assert DropRootPrefix("/etc/app.conf") == path;
    assert SlashFrom(path, 0) == 3;
    assert SlashFrom("app.conf", 0) == 8;
    assert Split("app.conf") == ["app.conf"];
    assert path[..3] == "etc" && path[4..] == "app.conf";
    assert Split(path) == ["etc"] + Split("app.conf");
    assert SlashJoined(["etc"]) == "etc" + "/" + SlashJoined([]);
  }
}
