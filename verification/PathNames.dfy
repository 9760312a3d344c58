/** What the normaliser and the filter make of a path, in terms of the names in it. */
module PathNames {
  import opened Paths
  import opened Text

  // ---------------------------------------------------------------------------------
  // The names in a path
  // ---------------------------------------------------------------------------------

  /** The names between slashes, without the empty ones. */
  function Names(s: string): seq<string>
    decreases |s|
  {
    if s == "" then []
    else if s[0] == '/' then Names(s[1..])
    else
      var name := Segment(s);
      if name == "" then [] else [name] + Names(s[|name|..])
  }

  /** Names with a slash between them. */
  function Join(names: seq<string>): string {
    if names == [] then ""
    else if |names| == 1 then names[0]
    else names[0] + "/" + Join(names[1..])
  }

  predicate EndsInSlash(s: string) {
    s != "" && s[|s| - 1] == '/'
  }

  /** The rooted path of some names, with a slash at the end if it is wanted. */
  function PathOf(names: seq<string>, slash: bool): string {
    "/" + Join(names) + (if slash && names != [] then "/" else "")
  }

  lemma {:induction false} SegmentIsName(s: string)
    requires s != "" && s[0] != '/'
    ensures var w := Segment(s);
      && w != "" && NoSlash(w) && w[0] == s[0]
      && s == w + s[|w|..] && (s[|w|..] == "" || s[|w|..][0] == '/')
  {
    SegmentHasNoSlash(s);
  }

  /** Collapsing leaves a name alone. */
  lemma {:induction false} CollapseAfterName(w: string, u: string)
    requires NoSlash(w) && (u == "" || u[0] == '/')
    ensures Collapse(w + u) == w + Collapse(u)
  {
    if w == "" {
      assert w + u == u;
    } else {
      var s := w + u;
      assert s[1..] == w[1..] + u && s[0] == w[0];
      assert forall i :: 0 <= i < |w[1..]| ==> w[1..][i] == w[i + 1];
      CollapseAfterName(w[1..], u);
      assert Collapse(s) == [s[0]] + Collapse(s[1..]);
      assert [w[0]] + (w[1..] + Collapse(u)) == w + Collapse(u);
    }
  }

  lemma {:induction false} JoinMore(w: string, names: seq<string>)
    ensures Join([w] + names) == if names == [] then w else w + "/" + Join(names)
  {
    assert ([w] + names)[1..] == names;
  }

  lemma {:induction false} OnlySlashes(s: string)
    requires Names(s) == [] && s != ""
    ensures EndsInSlash(s)
    decreases |s|
  {
    if s[0] == '/' {
      if |s| > 1 {
        OnlySlashes(s[1..]);
      }
    } else {
      SegmentIsName(s);
    }
  }

  /** From a slash on, collapsing gives the path of the names. */
  lemma {:induction false} CollapseIsPath(s: string)
    requires s != "" && s[0] == '/'
    ensures Collapse(s) == PathOf(Names(s), EndsInSlash(s))
    decreases |s|
  {
    var rest := s[1..];
    if rest == "" {
    } else if rest[0] == '/' {
      CollapseIsPath(rest);
    } else {
      SegmentIsName(rest);
      var w := Segment(rest);
      var u := rest[|w|..];
      CollapseAfterName(w, u);
      JoinMore(w, Names(u));
      assert Collapse(s) == "/" + (w + Collapse(u));
      if u != "" {
        CollapseIsPath(u);
        assert EndsInSlash(s) == EndsInSlash(u);
        if Names(u) == [] {
          OnlySlashes(u);
        }
        PathMore(w, Names(u), EndsInSlash(u));
      } else {
        assert !EndsInSlash(s) by {
          assert s[|s| - 1] == w[|w| - 1];
        }
      }
    }
  }

  lemma {:induction false} PathMore(w: string, names: seq<string>, slash: bool)
    requires names == [] ==> slash
    ensures "/" + (w + PathOf(names, slash)) == PathOf([w] + names, slash)
  {
    JoinMore(w, names);
    if names != [] {
      assert "/" + (w + ("/" + Join(names) + (if slash then "/" else "")))
        == "/" + (w + "/" + Join(names)) + (if slash then "/" else "");
    }
  }

  // ---------------------------------------------------------------------------------
  // The normaliser
  // ---------------------------------------------------------------------------------

  lemma {:induction false} RootedNames(s: string)
    ensures Rooted(Collapse(s)) == PathOf(Names(s), EndsInSlash(s))
  {
    if s == "" {
    } else if s[0] == '/' {
      CollapseIsPath(s);
    } else {
      var t := "/" + s;
      assert t[0] == '/' && t[1..] == s;
      CollapseOfSlash(s);
      CollapseIsPath(t);
      assert Names(t) == Names(s) && EndsInSlash(t) == EndsInSlash(s);
    }
  }

  /** What comes first: an empty part before a slash, or a name and the slash after it. */
  lemma {:induction false} FirstParts(s: string)
    requires s != ""
    ensures s[0] == '/' ==> Split(s) == [""] + Split(s[1..]) && Names(s) == Names(s[1..])
    ensures s[0] != '/' ==>
      var w := Segment(s);
      && w != ""
      && (if |w| == |s| then Split(s) == [w] && Names(s) == [w]
          else Split(s) == [w] + Split(s[|w| + 1..]) && Names(s) == [w] + Names(s[|w| + 1..]))
  {
    SegmentHasNoSlash(s);
    if s[0] != '/' {
      SegmentIsName(s);
      RestOfNames(s);
    }
  }

  lemma {:induction false} RestOfNames(s: string)
    requires s != "" && s[0] != '/' && Segment(s) != ""
    ensures var w := Segment(s);
      if |w| == |s| then Names(s) == [w] else Names(s) == [w] + Names(s[|w| + 1..])
  {
    hide Split;
    var w := Segment(s);
    SegmentIsName(s);
    if |w| == |s| {
      assert s[|w|..] == "" && Names("") == [];
    } else {
      assert s[|w|..][1..] == s[|w| + 1..];
    }
  }

  lemma {:induction false} NamesAreParts(s: string, d: string)
    requires d != ""
    ensures d in Names(s) <==> d in Split(s)
    decreases |s|
  {
    if s == "" {
    } else {
      FirstParts(s);
      hide Names, Split, Segment;
      var w := Segment(s);
      if s[0] == '/' {
        NamesAreParts(s[1..], d);
      } else if |w| < |s| {
        NamesAreParts(s[|w| + 1..], d);
      }
    }
  }

  /** Every name is a part between slashes. */
  ghost predicate ProperNames(names: seq<string>) {
    forall i :: 0 <= i < |names| ==> names[i] != "" && NoSlash(names[i])
  }

  lemma {:induction false} NamesAreProper(s: string)
    ensures ProperNames(Names(s))
    decreases |s|
  {
    if s == "" {
    } else if s[0] == '/' {
      NamesAreProper(s[1..]);
    } else {
      SegmentIsName(s);
      NamesAreProper(s[|Segment(s)|..]);
    }
  }

  lemma {:induction false} NamesOfPath(names: seq<string>, slash: bool)
    requires ProperNames(names)
    ensures Names(PathOf(names, slash)) == names
  {
    if names == [] {
      assert PathOf(names, slash) == "/" && "/"[1..] == "";
    } else {
      var w, rest, p := names[0], names[1..], PathOf(names, slash);
      assert forall i :: 0 <= i < |rest| ==> rest[i] == names[i + 1];
      assert names == [w] + rest;
      JoinMore(w, rest);
      var u := if rest == [] then (if slash then "/" else "") else PathOf(rest, slash);
      assert p[1..] == w + u by {
        if rest != [] {
          PathMore(w, rest, slash);
        }
      }
      NamesOfPath(rest, slash);
      NameFirst(w, u);
      if rest == [] && slash {
        assert u[1..] == "";
      }
    }
  }

  lemma {:induction false} SegmentStops(w: string, u: string)
    requires NoSlash(w) && (u == "" || u[0] == '/')
    ensures Segment(w + u) == w
  {
    if w == "" {
      assert w + u == u;
    } else {
      assert (w + u)[1..] == w[1..] + u;
      assert forall i :: 0 <= i < |w[1..]| ==> w[1..][i] == w[i + 1];
      SegmentStops(w[1..], u);
    }
  }

  lemma {:induction false} NameFirst(w: string, u: string)
    requires w != "" && NoSlash(w) && (u == "" || u[0] == '/')
    ensures Names(w + u) == [w] + Names(u)
  {
    SegmentStops(w, u);
    assert (w + u)[|w|..] == u;
  }

  /** What a path says: its names, with slashes of either kind between them, and whether it ends
      in one. */
  function Said(path: string): string {
    Slashes(Trim(path))
  }

  /** The normaliser gives the path of the same names, with one slash before each and the one at
      the end kept; or nothing, exactly when one of the names is `.` or `..`. */
  lemma {:induction false} NormalizeIsPathOfNames(path: string)
    ensures var names := Names(Said(path));
      Normalize(path) == if "." in names || ".." in names then "" else PathOf(names, EndsInSlash(Said(path)))
  {
    hide HasDots, Slashes, Trim, Collapse;
    var s := Said(path);
    var names, p := Names(s), Rooted(Collapse(s));
    RootedNames(s);
    DotsAreSegments(p);
    NamesAreParts(p[1..], ".");
    NamesAreParts(p[1..], "..");
    NamesAreProper(s);
    NamesOfPath(names, EndsInSlash(s));
    assert Names(p) == Names(p[1..]);
  }

  // ---------------------------------------------------------------------------------
  // The filter
  // ---------------------------------------------------------------------------------

  lemma {:induction false} PrefixOfName(w: string, u: string, d: string)
    requires NoSlash(w) && NoSlash(d) && (u == "" || u[0] == '/')
    ensures d <= w + u <==> d <= w
    ensures d + "/" <= w + u <==> w == d && u != ""
  {
    var s := w + u;
    if |w| < |d| {
      if u != "" {
        assert s[|w|] == '/' && d[|w|] != '/';
      }
    } else {
      assert s[..|d|] == w[..|d|];
      if |d| < |w| {
        assert s[|d|] == w[|d|] && (d + "/")[|d|] == '/';
      }
    }
  }

  /** The path of some names splits into the first of them and what follows it. */
  lemma {:induction false} PathSplits(names: seq<string>, slash: bool) returns (u: string)
    requires ProperNames(names) && names != []
    ensures PathOf(names, slash) == "/" + (names[0] + u) && (u == "" || u[0] == '/')
    ensures u != "" <==> |names| > 1 || slash
  {
    if |names| == 1 {
      u := if slash then "/" else "";
    } else {
      u := PathOf(names[1..], slash);
      assert names == [names[0]] + names[1..];
      PathMore(names[0], names[1..], slash);
    }
  }

  lemma {:induction false} ProtectedNames()
    ensures NoSlash("device-secret") && NoSlash("certs")
    ensures "/device-secret" == "/" + "device-secret" && "/certs/" == "/" + ("certs" + "/")
  {}

  lemma {:induction false} RootPrefix(d: string, s: string)
    ensures "/" + d <= "/" + s <==> d <= s
  {
    if d <= s {
      assert ("/" + s)[..|d| + 1] == "/" + d;
    }
    if "/" + d <= "/" + s {
      assert s[..|d|] == ("/" + s)[1..|d| + 1] == ("/" + d)[1..] == d;
    }
  }

  /** The filter, for every spelling of a path: it lets pass exactly the paths with at least one
      name, no two dots in a row, a first name that does not begin with `device-secret`, and
      nothing below `certs`. */
  lemma {:induction false} AllowedIff(path: string)
    ensures var names, slash := Names(Said(path)), EndsInSlash(Said(path));
      Allowed(Normalize(path)) <==>
        && names != [] && "." !in names && ".." !in names && !Contains(PathOf(names, slash), "..")
        && !("device-secret" <= names[0])
        && !(names[0] == "certs" && (|names| > 1 || slash))
  {
    hide Contains, Normalize, Said, EndsInSlash, Names;
    var names, slash := Names(Said(path)), EndsInSlash(Said(path));
    NormalizeIsPathOfNames(path);
    NamesAreProper(Said(path));
    if names != [] && "." !in names && ".." !in names {
      var u := PathSplits(names, slash);
      ProtectedNames();
      PrefixOfName(names[0], u, "device-secret");
      PrefixOfName(names[0], u, "certs");
      RootPrefix("device-secret", names[0] + u);
      RootPrefix("certs" + "/", names[0] + u);
    }
  }
}
