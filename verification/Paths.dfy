// The component loop of ob_knode_resolve against splitting a path at slashes.
module Paths {

  function SkipSlashes(p: string): (r: string)
    ensures |r| <= |p| && (r == "" || r[0] != '/')
    ensures r == p[|p| - |r|..]
  {
    if p != "" && p[0] == '/' then SkipSlashes(p[1..]) else p
  }

  // Up to the next slash or the end.
  function FirstComponent(p: string): (c: string)
    ensures |c| <= |p| && c == p[..|c|] && (|c| == |p| || p[|c|] == '/')
    ensures p != "" && p[0] != '/' ==> c != ""
  {
    if p == "" || p[0] == '/' then "" else [p[0]] + FirstComponent(p[1..])
  }

  // What the loop takes for components: skip slashes, read up to the next one,
  // until the path is used up.
  function Components(p: string): seq<string>
    decreases |p|
  {
    if p == "" then []
    else
      var q := SkipSlashes(p);
      if q == "" then [""]
      else
        var c := FirstComponent(q);
        [c] + Components(q[|c|..])
  }

  // Splitting at every slash, and dropping what is empty.
  function Split(p: string): (s: seq<string>)
    ensures |s| > 0
  {
    if p == "" then [""]
    else
      Headed(p[0], Split(p[1..]))
  }

  // A character more before the first piece, or a piece more.
  function Headed(c: char, s: seq<string>): (r: seq<string>)
    requires |s| > 0
    ensures |r| > 0
  {
    if c == '/' then [""] + s else [[c] + s[0]] + s[1..]
  }

  function NonEmpty(s: seq<string>): seq<string> {
    if s == [] then [] else if s[0] == "" then NonEmpty(s[1..]) else [s[0]] + NonEmpty(s[1..])
  }

  predicate EndsInSlash(p: string) { p != "" && p[|p| - 1] == '/' }

  lemma HeadedFirst(c: char, x: string, s: seq<string>)
    requires c != '/'
    ensures Headed(c, [x] + s) == [[c] + x] + s
  {
    assert ([x] + s)[1..] == s;
  }

  lemma HeadedConcat(c: char, s: seq<string>, t: seq<string>)
    requires |s| > 0
    ensures Headed(c, s + t) == Headed(c, s) + t
  {
    var x := [c] + s[0];
    assert (s + t)[1..] == s[1..] + t && [x] + (s[1..] + t) == ([x] + s[1..]) + t;
    assert [""] + (s + t) == ([""] + s) + t;
  }

  lemma SplitStep(c: char, t: string)
    ensures Split([c] + t) == Headed(c, Split(t))
  {
    assert ([c] + t)[1..] == t;
  }

  lemma NonEmptyStep(c: string, s: seq<string>)
    ensures NonEmpty([c] + s) == if c == "" then NonEmpty(s) else [c] + NonEmpty(s)
  {
    assert ([c] + s)[1..] == s;
  }

  // The pieces after the first n characters and a slash.
  function PiecesAfter(p: string, n: nat): seq<string>
    requires n <= |p|
  {
    if n == |p| then [] else Split(p[n + 1..])
  }

  lemma {:induction false} SplitHead(p: string)
    ensures Split(p) == [FirstComponent(p)] + PiecesAfter(p, |FirstComponent(p)|)
    decreases |p|
  {
    if p != "" && p[0] != '/' {
      hide Split, FirstComponent, Headed, PiecesAfter;
      var t := p[1..];
      var n := |FirstComponent(t)|;
      SplitHead(t);
      FirstSteps(p);
      HeadedFirst(p[0], FirstComponent(t), PiecesAfter(t, n));
      PiecesAfterStep(p, n);
    }
  }

  lemma PiecesAfterStep(p: string, n: nat)
    requires n + 1 <= |p|
    ensures PiecesAfter(p, n + 1) == PiecesAfter(p[1..], n)
  {
    if n + 1 < |p| { assert p[1..][n + 1..] == p[n + 2..]; }
  }

  lemma FirstSteps(p: string)
    requires p != ""
    ensures Split(p) == Headed(p[0], Split(p[1..]))
    ensures FirstComponent(p) == if p[0] == '/' then "" else [p[0]] + FirstComponent(p[1..])
  {
  }

  lemma SlashSkipped(q: string)
    requires q != ""
    ensures Components("/" + q) == Components(q)
  {
    assert ("/" + q)[1..] == q;
    assert SkipSlashes("/" + q) == SkipSlashes(q);
  }

  // The loop finds exactly the non-empty pieces, except that a trailing slash
  // adds an empty component at the end.
  lemma {:induction false} ComponentsAreSplit(p: string)
    ensures Components(p) == NonEmpty(Split(p)) + if EndsInSlash(p) then [""] else []
    decreases |p|, 1
  {
    hide SkipSlashes, Split, Components, NonEmpty;
    SlashOnly();
    if p == "" {
    } else if p[0] == '/' {
      var q := p[1..];
      ComponentsAreSplit(q);
      SplitStep('/', q);
      NonEmptyStep("", Split(q));
      assert p == ['/'] + q == "/" + q && Headed('/', Split(q)) == [""] + Split(q);
      if q == "" {
        assert p == "/";
      } else {
        SlashSkipped(q);
        assert p[|p| - 1] == q[|q| - 1];
      }
    } else {
      ComponentsOfName(p);
    }
  }

  lemma NamedFirst(p: string)
    requires p != "" && p[0] != '/'
    ensures Components(p) == [FirstComponent(p)] + Components(p[|FirstComponent(p)|..])
  {
  }

  lemma SlashOnly()
    ensures Components("/") == [""] && Components("") == [] && FirstComponent("") == ""
    ensures Split("") == [""] && NonEmpty([""]) == [] && NonEmpty([]) == []
  {
    assert SkipSlashes("/") == "";
    assert NonEmpty([""]) == NonEmpty([""][1..]);
  }

  lemma {:induction false} ComponentsOfName(p: string)
    requires p != "" && p[0] != '/'
    ensures Components(p) == NonEmpty(Split(p)) + if EndsInSlash(p) then [""] else []
    decreases |p|, 0
  {
    hide SkipSlashes, Split, Components, NonEmpty;
    var c := FirstComponent(p);
    SplitHead(p);
    NamedFirst(p);
    SlashOnly();
    if |c| == |p| {
      NonEmptyStep(c, []);
      assert [c] + [] == [c] && p[|c|..] == "";
      NoSlashAtEnd(p);
    } else {
      var q := p[|c| + 1..];
      NonEmptyStep(c, Split(q));
      assert p[|c|..] == "/" + q;
      ComponentsAreSplit(q);
      if q == "" {
        assert "/" + q == "/";
      } else {
        SlashSkipped(q);
      }
      assert p[|c|..][|q|] == p[|p| - 1] && ("/" + q)[|q|] == (if q == "" then '/' else q[|q| - 1]);
      var tail := if EndsInSlash(p) then [""] else [];
      assert Components(p) == [c] + (NonEmpty(Split(q)) + tail);
    }
  }

  lemma {:induction false} NoSlashAtEnd(p: string)
    requires p != "" && |FirstComponent(p)| == |p|
    ensures !EndsInSlash(p)
  {
    if |p| > 1 {
      NoSlashAtEnd(p[1..]);
    }
  }

  lemma {:induction false} SplitConcat(p: string, q: string)
    ensures Split(p + "/" + q) == Split(p) + Split(q)
    decreases |p|
  {
    hide Split, Headed;
    if p == "" {
      assert Split("/" + q) == Headed('/', Split(q)) by { SplitStep('/', q); }
      assert Headed('/', Split(q)) == Split("") + Split(q) by { SlashHeads(q); }
      assert p + "/" + q == "/" + q;
    } else {
      var t := p[1..];
      SplitConcat(t, q);
      assert Split(p) == Headed(p[0], Split(t)) by { FirstSteps(p); }
      assert Split(p + "/" + q) == Headed(p[0], Split(t + "/" + q)) by {
        SplitStep(p[0], t + "/" + q);
        assert p + "/" + q == [p[0]] + (t + "/" + q);
      }
      HeadedConcat(p[0], Split(t), Split(q));
    }
  }

  lemma SlashHeads(q: string)
    ensures Headed('/', Split(q)) == Split("") + Split(q)
  {
  }

  lemma {:induction false} NonEmptyConcat(s: seq<string>, t: seq<string>)
    ensures NonEmpty(s + t) == NonEmpty(s) + NonEmpty(t)
  {
    if s == [] {
      assert s + t == t;
    } else {
      hide NonEmpty;
      var u := s[1..];
      NonEmptyConcat(u, t);
      assert NonEmpty(s) == if s[0] == "" then NonEmpty(u) else [s[0]] + NonEmpty(u) by {
        NonEmptyStep(s[0], u);
        assert s == [s[0]] + u;
      }
      assert NonEmpty(s + t) == if s[0] == "" then NonEmpty(u + t) else [s[0]] + NonEmpty(u + t) by {
        NonEmptyStep(s[0], u + t);
        assert s + t == [s[0]] + (u + t);
      }
    }
  }

  lemma {:induction false} SplitName(name: string)
    requires forall k :: 0 <= k < |name| ==> name[k] != '/'
    ensures Split(name) == [name]
  {
    if name != "" {
      SplitName(name[1..]);
      assert [name[0]] + name[1..] == name;
    }
  }

  // One more name below a path is one more component.
  lemma ComponentsBelow(p: string, name: string)
    requires !EndsInSlash(p) && name != "" && forall k :: 0 <= k < |name| ==> name[k] != '/'
    ensures Components(p + "/" + name) == Components(p) + [name]
  {
    hide Components;
    ComponentsAreSplit(p);
    ComponentsAreSplit(p + "/" + name);
    SplitConcat(p, name);
    SplitName(name);
    NonEmptyConcat(Split(p), [name]);
    NonEmptyStep(name, []);
    assert [name] + [] == [name] && (p + "/" + name)[|p| + |name|] == name[|name| - 1];
  }
}
