/**
 * Layer-qualified node names. A base entity `b` (a gene) appears as `b.p` in the
 * proteomics layer and as `b.t` in the transcriptomics layer.
 */
module NodeNames {

  import opened Text

  const ProteinSuffix: string := ".p"
  const TranscriptSuffix: string := ".t"

  /** `f"{base}{suffix}"`, the name `add_layer_suffix` and the knockdowns build. */
  function LayerNode(base: string, suffix: string): string
  {
    base + suffix
  }

  /** `preprocess_node_name`: drop a trailing `.p` or `.t`, keep any other name. */
  function PreprocessNodeName(name: string): (r: string)
    ensures |r| <= |name|
    ensures r == name[..|r|]
  {
    if EndsWith(name, ProteinSuffix) || EndsWith(name, TranscriptSuffix) then name[..|name| - 2]
    else name
  }

  /** `node.split('.')[0]`: the text before the first dot. */
  function BaseName(node: string): (r: string)
    ensures '.' !in r
  {
    Split(node, '.')[0]
  }

  /** `node.replace('.p', '.t')`: the transcript twin of a protein node. */
  function TwinName(node: string): string
  {
    ReplaceAll(node, ProteinSuffix, TranscriptSuffix)
  }

  /** Stripping the layer suffix recovers any base name, dotted or not. */
  lemma PreprocessLayerNode(b: string)
    ensures PreprocessNodeName(LayerNode(b, ProteinSuffix)) == b
    ensures PreprocessNodeName(LayerNode(b, TranscriptSuffix)) == b
  {
    assert (b + ProteinSuffix)[..|b|] == b;
    assert (b + TranscriptSuffix)[..|b|] == b;
  }

  /**
   * Splitting at the first dot recovers the base name exactly when the base
   * name has no dot of its own.
   */
  lemma BaseNameOfLayerNode(b: string, suffix: string)
    requires suffix == ProteinSuffix || suffix == TranscriptSuffix
    ensures BaseName(LayerNode(b, suffix)) == b <==> '.' !in b
  {
    if '.' !in b {
      assert b + suffix == b + ['.'] + suffix[1..];
      SplitConcat(b, '.', suffix[1..]);
    }
  }

  /** For a dot-free base name, the protein node's twin is the transcript node. */
  lemma {:induction false} TwinOfProteinNode(b: string)
    requires '.' !in b
    ensures TwinName(LayerNode(b, ProteinSuffix)) == LayerNode(b, TranscriptSuffix)
    decreases |b|
  {
    var s := b + ProteinSuffix;
    if |b| == 0 {
      assert s == ProteinSuffix && StartsWith(s, ProteinSuffix);
      assert s[2..] == "";
    } else {
      assert !StartsWith(s, ProteinSuffix) by { assert s[0] == b[0] != '.'; }
      assert s[1..] == b[1..] + ProteinSuffix;
      TwinOfProteinNode(b[1..]);
      assert [b[0]] + (b[1..] + TranscriptSuffix) == b + TranscriptSuffix;
    }
  }

  /** Adding the same suffix never merges two names. */
  lemma LayerNodeInjective(a: string, b: string, suffix: string)
    ensures LayerNode(a, suffix) == LayerNode(b, suffix) <==> a == b
  {
    if a + suffix == b + suffix {
      assert a == (a + suffix)[..|a|];
      assert b == (b + suffix)[..|b|];
    }
  }

  /** A protein node and a transcript node never share a name. */
  lemma LayersDisjoint(a: string, b: string)
    ensures LayerNode(a, ProteinSuffix) != LayerNode(b, TranscriptSuffix)
  {
    var x, y := a + ProteinSuffix, b + TranscriptSuffix;
    assert x[|x| - 1] == 'p' && y[|y| - 1] == 't';
  }
}
