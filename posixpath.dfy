/** `pathlib.PurePosixPath` as phototz.py uses it: `str(pathlib.Path(base) / rel)`.
    pathlib splits a path at its slashes, drops empty and "." segments, keeps a root
    ("//" for exactly two leading slashes, "/" for one or three and more) and joins what
    is left with single slashes. */
module PosixPath {

  /** The pieces of a path joined with single slashes. */
  function Join(parts: seq<string>): string
    requires |parts| >= 1
    decreases |parts|
  {
    if |parts| == 1 then parts[0] else parts[0] + "/" + Join(parts[1..])
  }

  /** The pieces of s between its slashes: "a//b/" gives "a", "", "b", "". */
  function Split(s: string): (parts: seq<string>)
    ensures |parts| >= 1
    ensures forall i :: 0 <= i < |parts| ==> '/' !in parts[i]
    ensures Join(parts) == s
    decreases |s|
  {
    if s == [] then [""]
    else if s[0] == '/' then
      var rest := Split(s[1..]);
      assert ([""] + rest)[1..] == rest;
      assert s == "/" + s[1..];
      [""] + rest
    else
      var rest := Split(s[1..]);
      var head := [s[0]] + rest[0];
      assert s == [s[0]] + s[1..];
      assert ([head] + rest[1..])[1..] == rest[1..];
      [head] + rest[1..]
  }

  /** A segment pathlib drops. */
  predicate Dropped(seg: string) {
    seg == "" || seg == "."
  }

  /** The segments pathlib keeps, in order. */
  function Kept(parts: seq<string>): (r: seq<string>)
    ensures forall i :: 0 <= i < |r| ==> !Dropped(r[i]) && r[i] in parts
    ensures (forall i :: 0 <= i < |parts| ==> !Dropped(parts[i])) ==> r == parts
    decreases |parts|
  {
    if parts == [] then []
    else
      var rest := Kept(parts[1..]);
      assert forall x :: x in parts[1..] ==> x in parts;
      assert parts == [parts[0]] + parts[1..];
      if Dropped(parts[0]) then rest else [parts[0]] + rest
  }

  /** The root of a path: "//" for exactly two leading slashes, "/" for any other number. */
  function Root(s: string): string {
    if |s| >= 2 && s[0] == '/' && s[1] == '/' && (|s| == 2 || s[2] != '/') then "//"
    else if |s| >= 1 && s[0] == '/' then "/"
    else ""
  }

  /** `str(PurePosixPath(base) / rel)` for a relative rel given as its clean segments. */
  function JoinPath(base: string, rel: seq<string>): string
    requires |rel| >= 1
  {
    Root(base) + Join(Kept(Split(base)) + rel)
  }

  /** Joining two non-empty runs of segments puts one slash between their joins. */
  lemma {:induction false} JoinAppend(xs: seq<string>, ys: seq<string>)
    requires |xs| >= 1 && |ys| >= 1
    ensures Join(xs + ys) == Join(xs) + "/" + Join(ys)
    decreases |xs|
  {
    if |xs| > 1 {
      assert (xs + ys)[1..] == xs[1..] + ys;
      JoinAppend(xs[1..], ys);
    } else {
      assert (xs + ys)[1..] == ys;
    }
  }

  /** The result ends with rel joined, after one slash when anything of base is kept. */
  lemma JoinPathShape(base: string, rel: seq<string>)
    requires |rel| >= 1
    ensures var kept := Kept(Split(base));
      JoinPath(base, rel) == Root(base) + (if kept == [] then Join(rel) else Join(kept) + "/" + Join(rel))
  {
    var kept := Kept(Split(base));
    if kept != [] {
      JoinAppend(kept, rel);
    } else {
      assert kept + rel == rel;
    }
  }

  /** A leading slash adds one empty segment in front. */
  lemma SplitUnderSlash(tail: string)
    ensures Split("/" + tail) == [""] + Split(tail)
  {
    var abs := "/" + tail;
    assert abs[0] == '/' && abs[1..] == tail;
  }

  /** A relative path with no empty or "." segment (so no trailing slash) is kept as
      written. */
  lemma JoinPathClean(tail: string, rel: seq<string>)
    requires tail != [] && tail[0] != '/'
    requires forall i :: 0 <= i < |Split(tail)| ==> !Dropped(Split(tail)[i])
    requires |rel| >= 1
    ensures JoinPath(tail, rel) == tail + "/" + Join(rel)
  {
    var parts := Split(tail);
    assert Kept(parts) == parts;
    assert Root(tail) == "";
    JoinAppend(parts, rel);
  }

  /** The same path under one leading slash is kept as written too. */
  lemma JoinPathCleanAbsolute(tail: string, rel: seq<string>)
    requires tail != [] && tail[0] != '/'
    requires forall i :: 0 <= i < |Split(tail)| ==> !Dropped(Split(tail)[i])
    requires |rel| >= 1
    ensures JoinPath("/" + tail, rel) == "/" + tail + "/" + Join(rel)
  {
    KeptUnderSlash(tail);
    RootUnderSlash(tail);
    var parts := Split(tail);
    assert JoinPath("/" + tail, rel) == "/" + Join(parts + rel);
    JoinAppend(parts, rel);
    assert Join(parts) == tail;
    SlashAssoc(tail, Join(rel));
  }

  /** Regrouping around the slashes. */
  lemma SlashAssoc(a: string, b: string)
    ensures "/" + (a + "/" + b) == "/" + a + "/" + b
  {
  }

  /** Under one slash the kept segments of a clean relative path are all of its segments. */
  lemma KeptUnderSlash(tail: string)
    requires forall i :: 0 <= i < |Split(tail)| ==> !Dropped(Split(tail)[i])
    ensures Kept(Split("/" + tail)) == Split(tail)
  {
    SplitUnderSlash(tail);
    KeptSkipsDropped("", Split(tail));
  }

  /** A dropped segment in front changes nothing. */
  lemma KeptSkipsDropped(seg: string, parts: seq<string>)
    requires Dropped(seg)
    ensures Kept([seg] + parts) == Kept(parts)
  {
    assert ([seg] + parts)[1..] == parts;
  }

  /** One slash in front of a relative path is the root "/". */
  lemma RootUnderSlash(tail: string)
    requires tail != [] && tail[0] != '/'
    ensures Root("/" + tail) == "/"
  {
    var abs := "/" + tail;
    assert abs[0] == '/' && abs[1] == tail[0];
  }

  /** The joined result ends with rel, after a slash whenever anything comes before it. */
  lemma JoinPathSuffix(base: string, rel: seq<string>)
    requires |rel| >= 1
    ensures var p, t := JoinPath(base, rel), Join(rel);
      |p| >= |t| && p[|p| - |t|..] == t && (|p| > |t| ==> p[|p| - |t| - 1] == '/')
  {
    var kept := Kept(Split(base));
    var t := Join(rel);
    JoinPathShape(base, rel);
    var pre := Root(base) + (if kept == [] then "" else Join(kept) + "/");
    assert JoinPath(base, rel) == pre + t;
    assert pre == [] || pre[|pre| - 1] == '/';
  }

  /** A character other than a slash joins the first segment of the rest. */
  lemma SplitUnderChar(c: char, rest: string)
    requires c != '/'
    ensures Split([c] + rest) == [[c] + Split(rest)[0]] + Split(rest)[1..]
  {
    var s := [c] + rest;
    assert s[0] == c && s[1..] == rest;
  }

  /** A trailing slash adds one empty segment at the end. */
  lemma {:induction false} SplitTrailingSlash(s: string)
    ensures Split(s + "/") == Split(s) + [""]
    decreases |s|
  {
    var t := s + "/";
    if s == [] {
      assert t == "/" + [];
    } else {
      assert t[0] == s[0] && t[1..] == s[1..] + "/";
      SplitTrailingSlash(s[1..]);
      if s[0] != '/' {
        var rest := Split(s[1..]);
        assert (rest + [""])[0] == rest[0];
        assert (rest + [""])[1..] == rest[1..] + [""];
      }
    }
  }

  /** Dropped segments at the end change nothing. */
  lemma {:induction false} KeptDropsLast(parts: seq<string>, seg: string)
    requires Dropped(seg)
    ensures Kept(parts + [seg]) == Kept(parts)
    decreases |parts|
  {
    if parts == [] {
      assert Kept([seg]) == Kept([seg][1..]);
    } else {
      assert (parts + [seg])[1..] == parts[1..] + [seg];
      KeptDropsLast(parts[1..], seg);
    }
  }
}
