/** Strings that collide with a field name, in their rendered form and in what it stands for. */
module Collisions {
  import opened JsonLookup
  import Text

  /** A collision seen in rendered text is one in the text it stands for. */
  lemma {:induction false} CollisionUnescapes(x: string, key: string)
    requires Escaped(x) && Word(key) && Collides(x, key)
    ensures Collides(Unescape(x), key)
  {
    WordIsEscaped(key);
    if x != key {
      SuffixUnescapes(x, key);
    }
  }

  /** The suffix lies beyond the first unit of the text. */
  lemma {:induction false} SuffixBeyond(c: char, x: string, k: nat, u: string, t: string)
    requires k <= |x| && |x| - k >= |t| && Text.EndsWith(x, t)
    ensures Text.EndsWith(x[k..], t)
    ensures Text.EndsWith(u, t) ==> Text.EndsWith([c] + u, t)
  {
    assert x[k..][|x[k..]| - |t|..] == x[|x| - |t|..];
    if |t| <= |u| {
      assert ([c] + u)[1 + |u| - |t|..] == u[|u| - |t|..];
    }
  }

  lemma {:induction false} EndsWithItself(t: string)
    ensures Text.EndsWith(t, t)
  {
    assert t[0..] == t;
  }

  lemma {:induction false} SuffixUnescapes(x: string, key: string)
    requires Escaped(x) && Word(key) && Text.EndsWith(x, "\"" + key)
    ensures Text.EndsWith(Unescape(x), "\"" + key)
    decreases |x|
  {
    var t := "\"" + key;
    assert x[|x| - |t|..][0] == '"';
    WordIsEscaped(key);
    FirstUnit(x);
    QuoteStays();
    EndsWithItself(t);
    hide Undo, Escaped, Unescape, Text.EndsWith, Word;
    var k, c := if x[0] == '\\' then 2 else 1, if x[0] == '\\' then Undo(x[1]) else x[0];
    if |x| - k >= |t| {
      SuffixBeyond(c, x, k, Unescape(x[k..]), t);
      SuffixUnescapes(x[k..], key);
    } else {
      assert x[|x| - |t|..] == t by {
        EndsWithMeans(x, t);
      }
      assert k == 2 && |x| == |t| + 1;
      assert x[2..] == x[1..][1..] && t[1..] == key;
      assert Unescape(x) == t;
    }
  }

  lemma {:induction false} EndsWithMeans(x: string, t: string)
    requires Text.EndsWith(x, t)
    ensures x[|x| - |t|..] == t
  {}

  lemma {:induction false} QuoteStays()
    ensures Undo('"') == '"'
  {}
}
