/**
 The textual form of a key sequence: every key contributes a space followed by
 its formatted text. `Fields` reads such a text back into the formatted keys,
 which is possible whenever no formatted key contains a space.
 */
module Rendering {

  function Render<K>(keys: seq<K>, formatter: K -> string): string {
    if keys == [] then "" else " " + formatter(keys[0]) + Render(keys[1..], formatter)
  }

  lemma {:induction false} RenderAppend<K>(a: seq<K>, b: seq<K>, formatter: K -> string)
    ensures Render(a + b, formatter) == Render(a, formatter) + Render(b, formatter)
    decreases |a|
  {
    if a != [] {
      assert (a + b)[0] == a[0];
      assert (a + b)[1..] == a[1..] + b;
      RenderAppend(a[1..], b, formatter);
      assert a + b != [];
      var h := " " + formatter(a[0]);
      calc {
        Render(a + b, formatter);
        h + Render(a[1..] + b, formatter);
        h + (Render(a[1..], formatter) + Render(b, formatter));
        (h + Render(a[1..], formatter)) + Render(b, formatter);
      }
    } else {
      assert a + b == b;
    }
  }

  /** The formatted text of every key, in order. */
  function FormatAll<K>(keys: seq<K>, formatter: K -> string): (words: seq<string>)
    ensures |words| == |keys|
    ensures forall i | 0 <= i < |keys| :: words[i] == formatter(keys[i])
  {
    if keys == [] then [] else [formatter(keys[0])] + FormatAll(keys[1..], formatter)
  }

  /** The longest prefix of `s` without a space. */
  function Word(s: string): (w: string)
    ensures |w| <= |s| && w == s[..|w|]
    ensures ' ' !in w
    ensures |w| == |s| || s[|w|] == ' '
  {
    if s == [] || s[0] == ' ' then [] else [s[0]] + Word(s[1..])
  }

  /** Splits a text of the form " w1 w2 ... wn" back into its words. */
  function Fields(s: string): seq<string>
    decreases |s|
  {
    if s == [] then []
    else
      var w := Word(s[1..]);
      [w] + Fields(s[1 + |w|..])
  }

  lemma {:induction false} WordOf(w: string, rest: string)
    requires ' ' !in w
    requires rest == [] || rest[0] == ' '
    ensures Word(w + rest) == w
    decreases |w|
  {
    if w == [] {
      assert w + rest == rest;
    } else {
      assert (w + rest)[0] == w[0];
      assert (w + rest)[1..] == w[1..] + rest;
      assert w[0] in w;
      WordOf(w[1..], rest);
      assert [w[0]] + w[1..] == w;
    }
  }

  /** Reading a rendering back gives the formatted keys, provided none contains a space. */
  lemma {:induction false} FieldsOfRender<K>(keys: seq<K>, formatter: K -> string)
    requires forall k | k in keys :: ' ' !in formatter(k)
    ensures Fields(Render(keys, formatter)) == FormatAll(keys, formatter)
    decreases |keys|
  {
    if keys != [] {
      var w := formatter(keys[0]);
      var rest := Render(keys[1..], formatter);
      var s := " " + w + rest;
      assert Render(keys, formatter) == s;
      assert rest == [] || rest[0] == ' ';
      assert s[1..] == w + rest;
      WordOf(w, rest);
      assert s[1 + |w|..] == rest;
      FieldsOfRender(keys[1..], formatter);
    }
  }
}
