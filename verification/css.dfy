/** `CssManager`: collects the style of every component a compile uses,
    each once, in the order the components are first met. The manager is a
    value; including a name returns the updated manager. */
module Css {
  import opened Registry

  datatype CssManager = CssManager(included: set<string>, cssString: string)

  /** A fresh manager: nothing included, no CSS yet. */
  function Empty(): (m: CssManager)
    ensures m.included == {} && m.cssString == ""
  {
    CssManager({}, "")
  }

  /** Appends the component's style the first time its name is included;
      a name already included leaves the manager as it was. */
  function IncludeCss(reg: Registry, m: CssManager, name: string): (r: CssManager)
    requires name in reg
    ensures r.included == m.included + {name}
    ensures name in m.included ==> r == m
    ensures name !in m.included ==> r.cssString == m.cssString + reg[name].style
  {
    if name in m.included then m
    else CssManager(m.included + {name}, m.cssString + reg[name].style)
  }

  /** Including a name twice in a row is including it once. */
  lemma IncludeCssIdempotent(reg: Registry, m: CssManager, name: string)
    requires name in reg
    ensures IncludeCss(reg, IncludeCss(reg, m, name), name) == IncludeCss(reg, m, name)
  {
  }

  /** Includes the names in order. */
  function IncludeAll(reg: Registry, m: CssManager, names: seq<string>): CssManager
    requires forall i :: 0 <= i < |names| ==> names[i] in reg
    decreases |names|
  {
    if names == [] then m else IncludeAll(reg, IncludeCss(reg, m, names[0]), names[1..])
  }

  /** Including two lists is including their concatenation. */
  lemma {:induction false} IncludeAllAppend(reg: Registry, m: CssManager, a: seq<string>, b: seq<string>)
    requires forall i :: 0 <= i < |a| ==> a[i] in reg
    requires forall i :: 0 <= i < |b| ==> b[i] in reg
    ensures forall i :: 0 <= i < |a + b| ==> (a + b)[i] in reg
    ensures IncludeAll(reg, m, a + b) == IncludeAll(reg, IncludeAll(reg, m, a), b)
    decreases |a|
  {
    if a == [] {
      assert a + b == b;
    } else {
      assert (a + b)[0] == a[0];
      assert (a + b)[1..] == a[1..] + b;
      IncludeAllAppend(reg, IncludeCss(reg, m, a[0]), a[1..], b);
    }
  }

  /** The names of `names` not in `seen`, each once, in the order of
      their first occurrence. */
  function FirstOccurrences(seen: set<string>, names: seq<string>): seq<string>
    decreases |names|
  {
    if names == [] then []
    else if names[0] in seen then FirstOccurrences(seen, names[1..])
    else [names[0]] + FirstOccurrences(seen + {names[0]}, names[1..])
  }

  /** The styles of the named components, concatenated in order. */
  function Styles(reg: Registry, names: seq<string>): string
    requires forall i :: 0 <= i < |names| ==> names[i] in reg
  {
    if names == [] then "" else reg[names[0]].style + Styles(reg, names[1..])
  }

  /** What a run of inclusions amounts to: every name is included, and
      the CSS grows by the styles of the names not seen before, each once,
      in first-occurrence order. */
  lemma {:induction false} IncludeAllSpec(reg: Registry, m: CssManager, names: seq<string>)
    requires forall i :: 0 <= i < |names| ==> names[i] in reg
    ensures var f := FirstOccurrences(m.included, names);
      && (forall i :: 0 <= i < |f| ==> f[i] in reg)
      && IncludeAll(reg, m, names)
         == CssManager(m.included + set i | 0 <= i < |names| :: names[i],
                       m.cssString + Styles(reg, f))
    decreases |names|
  {
    if names != [] {
      var n := names[0];
      var rest := names[1..];
      var m1 := IncludeCss(reg, m, n);
      IncludeAllSpec(reg, m1, rest);
      FirstOccurrencesIn(m1.included, rest);
      var all := set i | 0 <= i < |names| :: names[i];
      var tail := set i | 0 <= i < |rest| :: rest[i];
      assert all == {n} + tail by {
        forall x | x in all
          ensures x in {n} + tail
        {
          var i :| 0 <= i < |names| && names[i] == x;
          if i > 0 {
            assert rest[i - 1] == x;
          }
        }
        forall x | x in tail
          ensures x in all
        {
          var i :| 0 <= i < |rest| && rest[i] == x;
          assert names[i + 1] == x;
        }
      }
      if n !in m.included {
        assert FirstOccurrences(m.included, names) == [n] + FirstOccurrences(m1.included, rest);
        assert Styles(reg, [n] + FirstOccurrences(m1.included, rest))
          == reg[n].style + Styles(reg, FirstOccurrences(m1.included, rest));
      }
    }
  }

  /** Every name `FirstOccurrences` keeps comes from the list. */
  lemma {:induction false} FirstOccurrencesIn(seen: set<string>, names: seq<string>)
    ensures forall x :: x in FirstOccurrences(seen, names) ==> x in names
    decreases |names|
  {
    if names != [] {
      var n := names[0];
      var seen1 := if n in seen then seen else seen + {n};
      FirstOccurrencesIn(seen1, names[1..]);
      assert forall x :: x in names[1..] ==> x in names;
    }
  }

  /** The names `FirstOccurrences` keeps are new and pairwise distinct. */
  lemma {:induction false} FirstOccurrencesDistinct(seen: set<string>, names: seq<string>)
    ensures var f := FirstOccurrences(seen, names);
      && (forall x :: x in f ==> x !in seen)
      && (forall i, j :: 0 <= i < j < |f| ==> f[i] != f[j])
    decreases |names|
  {
    if names != [] {
      var n := names[0];
      if n in seen {
        FirstOccurrencesDistinct(seen, names[1..]);
      } else {
        FirstOccurrencesDistinct(seen + {n}, names[1..]);
        var f := FirstOccurrences(seen, names);
        var g := FirstOccurrences(seen + {n}, names[1..]);
        assert f == [n] + g;
        forall i, j | 0 <= i < j < |f|
          ensures f[i] != f[j]
        {
          assert f[j] == g[j - 1] && g[j - 1] in g;
          if i > 0 {
            assert f[i] == g[i - 1];
          }
        }
      }
    }
  }

  /** A name included once stays included: including it again, anywhere
      later, adds nothing. */
  lemma {:induction false} IncludeAllRepeat(reg: Registry, m: CssManager, names: seq<string>)
    requires forall i :: 0 <= i < |names| ==> names[i] in reg && names[i] in m.included
    ensures IncludeAll(reg, m, names) == m
    decreases |names|
  {
    if names != [] {
      IncludeAllRepeat(reg, m, names[1..]);
    }
  }
}
