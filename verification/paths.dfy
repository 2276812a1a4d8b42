/**
 * POSIX path operations the scripts call: `os.path.basename`,
 * `os.path.dirname` and two-argument `os.path.join`, as Python's
 * `posixpath` module defines them.
 */
module Paths {
  import opened Strings

  /** The position just past the last '/' of `p`, or 0 when `p` has none. */
  function AfterLastSlash(p: string): (i: nat)
    ensures i <= |p|
    ensures i > 0 ==> p[i - 1] == '/'
    ensures forall k :: i <= k < |p| ==> p[k] != '/'
  {
    if p == [] then 0
    else if p[|p| - 1] == '/' then |p|
    else
      var i := AfterLastSlash(p[..|p| - 1]);
      assert forall k :: i <= k < |p| - 1 ==> p[..|p| - 1][k] == p[k];
      i
  }

  /** `os.path.basename(p)`, also `p.split('/')[-1]`: the text after the last '/'. */
  function Basename(p: string): (b: string)
    ensures '/' !in b
    ensures EndsWith(p, b)
  {
    p[AfterLastSlash(p)..]
  }

  predicate AllSlashes(s: string)
  {
    forall k :: 0 <= k < |s| ==> s[k] == '/'
  }

  /** `s.rstrip('/')`. */
  function TrimTrailingSlashes(s: string): (r: string)
    ensures StartsWith(s, r)
    ensures r == [] || r[|r| - 1] != '/'
    ensures forall k :: |r| <= k < |s| ==> s[k] == '/'
  {
    if s == [] || s[|s| - 1] != '/' then s
    else
      var r := TrimTrailingSlashes(s[..|s| - 1]);
      assert forall k :: |r| <= k < |s| - 1 ==> s[..|s| - 1][k] == s[k];
      r
  }

  /**
   * `os.path.dirname(p)`: everything up to the last '/', with trailing
   * slashes removed unless that would leave nothing but the root.
   */
  function Dirname(p: string): (d: string)
    ensures StartsWith(p, d)
  {
    var head := p[..AfterLastSlash(p)];
    if head != [] && !AllSlashes(head) then TrimTrailingSlashes(head) else head
  }

  /** `os.path.join(a, b)`. */
  function Join(a: string, b: string): string
  {
    if StartsWith(b, "/") then b
    else if a == [] || a[|a| - 1] == '/' then a + b
    else a + "/" + b
  }

  /** No two slashes stand next to each other in `p`. */
  predicate NoDoubledSlash(p: string)
  {
    forall k :: 0 < k < |p| ==> !(p[k - 1] == '/' && p[k] == '/')
  }

  /**
   * Joining a path's directory and its base name gives the path back
   * (for a path without doubled slashes), so an output placed in
   * `Dirname(p)` sits beside `p`.
   */
  lemma DirnameBasename(p: string)
    requires NoDoubledSlash(p)
    ensures Join(Dirname(p), Basename(p)) == p
  {
    var i := AfterLastSlash(p);
    var head, base := p[..i], p[i..];
    assert head + base == p;
    assert !StartsWith(base, "/") by {
      if base != [] { assert base[0] == p[i]; }
    }
    if i > 0 && !AllSlashes(head) {
      assert i >= 2;
      assert p[i - 2] != '/';
      TrimOneSlash(head);
      assert head[..i - 1] == p[..i - 1];
      assert Dirname(p) == p[..i - 1];
      assert Join(p[..i - 1], base) == p[..i - 1] + "/" + base;
      assert p[..i - 1] + "/" + base == p;
    } else {
      assert Dirname(p) == head;
      assert head == [] || head[|head| - 1] == '/';
      assert Join(head, base) == head + base;
    }
  }

  /** A single trailing slash after a non-slash is all `rstrip('/')` removes. */
  lemma TrimOneSlash(s: string)
    requires |s| >= 2 && s[|s| - 1] == '/' && s[|s| - 2] != '/'
    ensures TrimTrailingSlashes(s) == s[..|s| - 1]
  {
    assert s[..|s| - 1][|s| - 2] != '/';
  }

  lemma {:induction false} AfterLastSlashAppend(x: string, name: string)
    requires '/' !in name
    ensures AfterLastSlash(x + name) == AfterLastSlash(x)
  {
    if name != [] {
      var xn := x + name;
      assert xn[..|xn| - 1] == x + name[..|name| - 1];
      assert xn[|xn| - 1] == name[|name| - 1];
      AfterLastSlashAppend(x, name[..|name| - 1]);
    } else {
      assert x + name == x;
    }
  }

  /** A plain file name joined onto any directory is the base name of the result. */
  lemma BasenameOfJoin(dir: string, name: string)
    requires '/' !in name
    ensures Basename(Join(dir, name)) == name
  {
    if name != [] {
      assert !StartsWith(name, "/") by { assert name[0] != '/'; }
    }
    var j := Join(dir, name);
    if dir == [] {
      assert j == name;
      AfterLastSlashAppend([], name);
      assert [] + name == name;
    } else if dir[|dir| - 1] == '/' {
      AfterLastSlashAppend(dir, name);
    } else {
      assert j == (dir + "/") + name;
      AfterLastSlashAppend(dir + "/", name);
    }
  }

  /**
   * The last piece of `p.split('/')` has no slash, ends `p`, is all of
   * `p` when there is no other piece, and otherwise follows a slash.
   */
  predicate LastPieceShaped(p: string)
  {
    var ps := Split(p, '/');
    var last := Last(ps);
    && '/' !in last
    && EndsWith(p, last)
    && (|ps| == 1 ==> last == p)
    && (|ps| > 1 ==> |last| < |p| && p[|p| - |last| - 1] == '/')
  }

  lemma {:induction false} LastPieceShape(p: string)
    ensures LastPieceShaped(p)
  {
    if p != [] {
      LastPieceShape(p[1..]);
      if p[0] == '/' {
        LeadingSlashShape(p);
      } else if |Split(p[1..], '/')| == 1 {
        OnePieceShape(p);
      } else {
        ManyPiecesShape(p);
      }
    }
  }

  lemma LeadingSlashShape(p: string)
    requires p != [] && p[0] == '/' && LastPieceShaped(p[1..])
    ensures LastPieceShaped(p)
  {
    var tail := p[1..];
    var rest := Split(tail, '/');
    var last := Last(rest);
    assert Split(p, '/') == [""] + rest;
    assert Last(Split(p, '/')) == last;
    assert p[|p| - |last|..] == tail[|tail| - |last|..];
    if |last| == |tail| {
      assert p[|p| - |last| - 1] == p[0];
    } else {
      assert p[|p| - |last| - 1] == tail[|tail| - |last| - 1];
    }
  }

  lemma OnePieceShape(p: string)
    requires p != [] && p[0] != '/' && LastPieceShaped(p[1..]) && |Split(p[1..], '/')| == 1
    ensures LastPieceShaped(p)
  {
    var rest := Split(p[1..], '/');
    assert Split(p, '/') == [[p[0]] + rest[0]];
    assert [p[0]] + p[1..] == p;
  }

  lemma ManyPiecesShape(p: string)
    requires p != [] && p[0] != '/' && LastPieceShaped(p[1..]) && |Split(p[1..], '/')| > 1
    ensures LastPieceShaped(p)
  {
    var tail := p[1..];
    var rest := Split(tail, '/');
    var last := Last(rest);
    assert Split(p, '/') == [[p[0]] + rest[0]] + rest[1..];
    assert Last(Split(p, '/')) == last;
    assert p[|p| - |last|..] == tail[|tail| - |last|..];
    assert p[|p| - |last| - 1] == tail[|tail| - |last| - 1];
  }

  /** `ps[-1]`. */
  function Last(ps: seq<string>): (last: string)
    requires |ps| > 0
    ensures last in ps
  {
    ps[|ps| - 1]
  }

  /** A slash-free ending of `p` that is all of `p` or follows a slash is the base name. */
  lemma BasenameUnique(p: string, b: string)
    requires '/' !in b && EndsWith(p, b)
    requires |b| == |p| || p[|p| - |b| - 1] == '/'
    ensures b == Basename(p)
  {
    var i := AfterLastSlash(p);
    assert forall k :: |p| - |b| <= k < |p| ==> p[k] == b[k - (|p| - |b|)];
    if i > 0 {
      assert p[i - 1] == '/';
    }
    assert |b| == |p| - i;
  }

  /** `p.split('/')[-1]` is `os.path.basename(p)`. */
  lemma LastPieceIsBasename(p: string)
    ensures Last(Split(p, '/')) == Basename(p)
  {
    LastPieceShape(p);
    BasenameUnique(p, Last(Split(p, '/')));
  }
}
