/**
 Relative directories (tce/src/tools/FileSystem.cc:758-825), on the component sequences that path
 iteration gives: the root directory is the component "/".
 */
module RelativePath {
  import opened Wrappers

  function CommonLength(a: seq<string>, b: seq<string>): (n: nat)
    ensures n <= |a| && n <= |b| && a[..n] == b[..n]
    ensures n < |a| && n < |b| ==> a[n] != b[n]
  {
    if a == [] || b == [] || a[0] != b[0] then 0
    else
      var n := CommonLength(a[1..], b[1..]);
      assert a[..n + 1] == [a[0]] + a[1..][..n] && b[..n + 1] == [b[0]] + b[1..][..n];
      1 + n
  }

  /** Components with a separator between each two. */
  function Join(parts: seq<string>): string {
    if parts == [] then ""
    else if |parts| == 1 then parts[0]
    else parts[0] + "/" + Join(parts[1..])
  }

  function Ups(n: nat): string {
    if n == 0 then "" else "../" + Ups(n - 1)
  }

  /** The relative directory; None where the function returns false. */
  function RelativeOf(base: seq<string>, to: seq<string>): Option<string> {
    var n := CommonLength(base, to);
    if n < 1 then None else Some(Ups(|base| - n) + Join(to[n..]))
  }

  // ---------------------------------------------------------------------------------------
  // Resolving a relative path
  // ---------------------------------------------------------------------------------------

  /** One step of a relative path from a directory. */
  function Step(at: seq<string>, c: string): seq<string> {
    if c == "" || c == "." then at
    else if c == ".." then if |at| <= 1 then at else at[..|at| - 1]
    else at + [c]
  }

  /** Follow a path text, with the characters of an unfinished component in cur. */
  function Follow(at: seq<string>, cur: string, s: string): seq<string>
    decreases |s|
  {
    if s == "" then Step(at, cur)
    else if s[0] == '/' then Follow(Step(at, cur), "", s[1..])
    else Follow(at, cur + [s[0]], s[1..])
  }

  function Resolve(at: seq<string>, s: string): seq<string> {
    Follow(at, "", s)
  }

  /** A name as it occurs below the root of a normalized path. */
  predicate PlainName(c: string) {
    c != "" && c != "." && c != ".." && '/' !in c
  }

  predicate PlainNames(parts: seq<string>) {
    forall i :: 0 <= i < |parts| ==> PlainName(parts[i])
  }

  /** A normalized absolute directory. */
  predicate Absolute(parts: seq<string>) {
    parts != [] && parts[0] == "/" && PlainNames(parts[1..])
  }

  lemma {:induction false} FollowComponent(at: seq<string>, cur: string, c: string, rest: string)
    requires '/' !in c && (rest == "" || rest[0] == '/')
    ensures Follow(at, cur, c + rest) == Follow(at, cur + c, rest)
    decreases |c|
  {
    if c == "" {
      assert c + rest == rest && cur + c == cur;
    } else {
      assert (c + rest)[1..] == c[1..] + rest;
      FollowComponent(at, cur + [c[0]], c[1..], rest);
      assert cur + [c[0]] + c[1..] == cur + c;
    }
  }

  lemma FollowStep(at: seq<string>, c: string, s: string)
    requires '/' !in c
    ensures Resolve(at, c + "/" + s) == Resolve(Step(at, c), s)
    ensures Resolve(at, c) == Step(at, c)
  {
    assert c + "/" + s == c + ("/" + s);
    assert "" + c == c;
    FollowComponent(at, "", c, "/" + s);
    assert ("/" + s)[1..] == s;
    FollowComponent(at, "", c, "");
    assert c + "" == c;
  }

  /** Plain names are appended one after another. */
  lemma {:induction false} ResolveJoin(at: seq<string>, parts: seq<string>)
    requires PlainNames(parts)
    ensures Resolve(at, Join(parts)) == at + parts
    decreases |parts|
  {
    if parts == [] {
      assert at + parts == at;
    } else {
      FollowStep(at, parts[0], Join(parts[1..]));
      assert at + [parts[0]] + parts[1..] == at + parts;
      if |parts| > 1 {
        ResolveJoin(at + [parts[0]], parts[1..]);
      } else {
        assert parts == [parts[0]];
      }
    }
  }

  /** So many steps up, as long as they stay below the root. */
  lemma {:induction false} ResolveUps(at: seq<string>, n: nat, s: string)
    requires n < |at|
    ensures Resolve(at, Ups(n) + s) == Resolve(at[..|at| - n], s)
    decreases n
  {
    if n == 0 {
      assert Ups(0) + s == s && at[..|at|] == at;
    } else {
      var up := ".." + "/" + (Ups(n - 1) + s);
      assert Ups(n) + s == up;
      FollowStep(at, "..", Ups(n - 1) + s);
      ResolveUps(at[..|at| - 1], n - 1, s);
      assert at[..|at| - 1][..|at| - 1 - (n - 1)] == at[..|at| - n];
    }
  }

  /**
   For two normalized absolute directories a relative directory is always found, and following it from
   the base leads to the target, whether the target lies below the base or not.
   */
  lemma RelativeLeadsBack(base: seq<string>, to: seq<string>)
    requires Absolute(base) && Absolute(to)
    ensures RelativeOf(base, to).Some? && Resolve(base, RelativeOf(base, to).value) == to
  {
    var n := CommonLength(base, to);
    assert n >= 1;
    assert forall i :: n <= i < |to| ==> to[i] == to[1..][i - 1];
    ResolveUps(base, |base| - n, Join(to[n..]));
    ResolveJoin(base[..n], to[n..]);
    assert base[..n] + to[n..] == to;
  }

  /**
   The function returns false exactly if no leading component is shared. So it does not ask for absolute
   directories as its documentation says: two relative ones with the same first component are accepted.
   */
  lemma FailsIff(base: seq<string>, to: seq<string>)
    ensures RelativeOf(base, to).None? <==> base == [] || to == [] || base[0] != to[0]
  {
  }

  /** Two relative directories are taken: from a/b to a/c by way of the parent directory. */
  lemma RelativeIsTaken()
    ensures RelativeOf(["a", "b"], ["a", "c"]) == Some("../c")
  {
    var base, to := ["a", "b"], ["a", "c"];
    assert base[1..] == ["b"] && to[1..] == ["c"] && base[..1] == to[..1];
    CommonGrows(base, to, 1);
    assert Ups(1) == "../" + Ups(0);
    assert Ups(1) + Join(["c"]) == "../c";
  }

  lemma {:induction false} CommonGrows(a: seq<string>, b: seq<string>, n: nat)
    requires n <= |a| && n <= |b| && a[..n] == b[..n] && (n == |a| || n == |b| || a[n] != b[n])
    ensures CommonLength(a, b) == n
    decreases n
  {
    if n > 0 {
      assert a[0] == a[..n][0] && b[0] == b[..n][0];
      assert a[1..][..n - 1] == a[..n][1..] && b[1..][..n - 1] == b[..n][1..];
      CommonGrows(a[1..], b[1..], n - 1);
    }
  }

  lemma {:induction false} UpsLast(n: nat)
    ensures Ups(n) + "../" == Ups(n + 1)
    decreases n
  {
    if n > 0 {
      UpsLast(n - 1);
      assert "../" + Ups(n - 1) + "../" == "../" + (Ups(n - 1) + "../");
    } else {
      assert Ups(0) + "../" == "../" + Ups(0);
    }
  }

  lemma {:induction false} JoinLast(parts: seq<string>, i: nat)
    requires i < |parts|
    ensures Join(parts[..i + 1]) == (if i == 0 then "" else Join(parts[..i]) + "/") + parts[i]
    decreases i
  {
    if i == 0 {
      assert parts[..1] == [parts[0]];
      assert "" + parts[0] == parts[0];
    } else {
      var tail := parts[1..];
      assert parts[..i + 1][1..] == tail[..i] && parts[..i][1..] == tail[..i - 1];
      JoinLast(tail, i - 1);
      if i == 1 {
        assert parts[..1] == [parts[0]];
        assert "" + tail[0] == tail[0];
      } else {
        assert parts[0] + "/" + (Join(tail[..i - 1]) + "/" + tail[i - 1])
               == parts[0] + "/" + Join(tail[..i - 1]) + "/" + tail[i - 1];
      }
    }
  }

  /** The components from an iterator on, with separators between them. */
  method AppendRest(to: seq<string>, start: nat) returns (s: string)
    requires start <= |to|
    ensures s == Join(to[start..])
  {
    s := "";
    var it := start;
    ghost var rest := to[start..];
    while it < |to|
      invariant start <= it <= |to|
      invariant s == if start < it < |to| then Join(rest[..it - start]) + "/" else Join(rest[..it - start])
    {
      JoinLast(rest, it - start);
      s := s + to[it];
      it := it + 1;
      if it != |to| {
        s := s + "/";
      }
    }
    assert rest[..|to| - start] == rest;
  }

  /** relativeDir: false leaves the second directory as it is. */
  method RelativeDir(base: seq<string>, to: seq<string>) returns (ok: bool, result: string)
    ensures ok <==> RelativeOf(base, to).Some?
    ensures ok ==> result == RelativeOf(base, to).value
  {
    var same := 0;
    while same < |base| && same < |to| && base[same] == to[same]
      invariant 0 <= same <= |base| && same <= |to| && base[..same] == to[..same]
    {
      same := same + 1;
    }
    CommonGrows(base, to, same);
    if same < 1 {
      return false, "";
    }
    ok := true;
    if same == |base| {
      result := AppendRest(to, same);
      assert Ups(0) + result == result;
    } else {
      var temp := AppendRest(to, same);
      var diff, it := 0, same;
      while it != |base|
        invariant same <= it <= |base| && diff == it - same
        decreases |base| - it
      {
        it, diff := it + 1, diff + 1;
      }
      result := "";
      var i := 0;
      while diff > i
        invariant 0 <= i <= diff && result == Ups(i)
      {
        UpsLast(i);
        result := result + ".." + "/";
        assert Ups(i) + ".." + "/" == Ups(i) + "../";
        i := i + 1;
      }
      result := result + temp;
    }
  }
}
