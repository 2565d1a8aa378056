/** `obfuscateMessage` and the space marking applied to obfuscated commit
    messages: a message is replaced by a silhouette that keeps its length
    and its word breaks and hides every other character behind a block
    glyph. */
module Obfuscation {

  /** `specialChars`: the glyphs a non-space character can become. */
  const Glyphs: seq<char> := ['▄', '▅', '▇', '█', '▉']

  /** What every space of an obfuscated commit message is finally shown as. */
  const SpaceMark: char := '▌'

  type GlyphIndex = i: int | 0 <= i < 5

  /** The glyph chosen for each character position. The source draws it
      with `Math.floor(Math.random() * 5)`; here the draws are an input, so
      every possible outcome of the random choice is one value of `Picks`. */
  type Picks = nat -> GlyphIndex

  /** `o` has the shape of `m`: same length, a space exactly where `m` has
      one, and one of the glyphs everywhere else. */
  predicate IsSilhouette(m: string, o: string) {
    |o| == |m| &&
    forall i :: 0 <= i < |m| ==> if m[i] == ' ' then o[i] == ' ' else o[i] in Glyphs
  }

  /** The string `obfuscateMessage(m)` returns when the random draws are `pick`. */
  function Obfuscated(m: string, pick: Picks): (o: string)
    ensures IsSilhouette(m, o)
  {
    seq(|m|, i requires 0 <= i < |m| => if m[i] == ' ' then ' ' else Glyphs[pick(i)])
  }

  /** `obfuscateMessage`: appends, position by position, a space for a space
      and a drawn glyph for anything else. */
  method ObfuscateMessage(m: string, pick: Picks) returns (o: string)
    ensures o == Obfuscated(m, pick)
  {
    o := "";
    for i := 0 to |m|
      invariant |o| == i
      invariant forall k :: 0 <= k < i ==> o[k] == if m[k] == ' ' then ' ' else Glyphs[pick(k)]
    {
      var c := m[i];
      if c == ' ' {
        o := o + [' '];
      } else {
        var glyph := pick(i);
        o := o + [Glyphs[glyph]];
      }
    }
  }

  function GlyphIndexOf(c: char): (k: GlyphIndex)
    ensures c in Glyphs ==> Glyphs[k] == c
  {
    if c == Glyphs[0] then 0
    else if c == Glyphs[1] then 1
    else if c == Glyphs[2] then 2
    else if c == Glyphs[3] then 3
    else 4
  }

  /** The model loses no outcome of the random choice: every silhouette of
      `m` is what `obfuscateMessage(m)` returns for some draws. */
  lemma EverySilhouetteReachable(m: string, o: string)
    requires IsSilhouette(m, o)
    ensures exists pick: Picks :: Obfuscated(m, pick) == o
  {
    var pick: Picks := (i: nat) => if i < |o| then GlyphIndexOf(o[i]) else 0;
    assert Obfuscated(m, pick) == o;
  }

  /** `s.replace(/ /g, '▌')`. */
  function ReplaceSpaces(s: string): (r: string)
    ensures |r| == |s|
    ensures forall i :: 0 <= i < |s| && s[i] != ' ' ==> r[i] == s[i]
    ensures ' ' !in r
  {
    seq(|s|, i requires 0 <= i < |s| => if s[i] == ' ' then SpaceMark else s[i])
  }

  /** An obfuscated commit message as rendered: a silhouette whose spaces
      are then marked. */
  function Scrambled(m: string, pick: Picks): string {
    ReplaceSpaces(Obfuscated(m, pick))
  }

  /** The rendered obfuscated message keeps the length of the message, has
      no space left, shows the space mark exactly where the message had a
      space and a glyph everywhere else. */
  lemma ScrambledShape(m: string, pick: Picks)
    ensures |Scrambled(m, pick)| == |m|
    ensures ' ' !in Scrambled(m, pick)
    ensures forall i :: 0 <= i < |m| ==> (m[i] == ' ' <==> Scrambled(m, pick)[i] == SpaceMark)
    ensures forall i :: 0 <= i < |m| && m[i] != ' ' ==> Scrambled(m, pick)[i] in Glyphs
  {
    var o := Obfuscated(m, pick);
    var r := Scrambled(m, pick);
    forall i | 0 <= i < |m|
      ensures (m[i] == ' ' <==> r[i] == SpaceMark)
      ensures m[i] != ' ' ==> r[i] in Glyphs
    {
      if m[i] != ' ' {
        assert o[i] in Glyphs && o[i] != ' ';
        assert SpaceMark !in Glyphs;
      }
    }
  }
}
