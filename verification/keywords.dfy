/** Search keywords and queries derived from an image file name: the name
    without its extension, with dashes and underscores turned into spaces,
    and the query templates built around it. */
module Keywords {
  import Seqs
  import Text

  /** Some character of `p[from..to]` is not a dot. */
  predicate HasNonDot(p: string, from: int, to: int)
    requires 0 <= from <= to <= |p|
  {
    exists i :: from <= i < to && p[i] != '.'
  }

  /** `os.path.splitext(p)[0]` with POSIX separators: the extension starts at
      the last dot after the last slash, unless only dots precede that dot in
      the last path component (so `.bashrc` and `..x` have no extension). */
  function SplitExtRoot(p: string): (root: string)
    ensures |root| <= |p| && root == p[..|root|]
    ensures root != p ==> p[|root|] == '.' && '.' !in p[|root| + 1..] && '/' !in p[|root|..]
    ensures root != p ==> HasNonDot(p, Seqs.LastIndex(p, '/') + 1, |root|)
    ensures root == p ==> forall i, j :: Seqs.LastIndex(p, '/') < j < i < |p| && p[i] == '.' ==> p[j] == '.'
  {
    var sepIndex := Seqs.LastIndex(p, '/');
    var dotIndex := Seqs.LastIndex(p, '.');
    if dotIndex > sepIndex && HasNonDot(p, sepIndex + 1, dotIndex) then p[..dotIndex] else p
  }

  /** A slash-free stem with a character other than a dot, followed by one
      dot-free extension, splits back into that stem. */
  lemma RootOfStemAndExtension(stem: string, ext: string)
    requires '/' !in stem && HasNonDot(stem, 0, |stem|)
    requires '.' !in ext && '/' !in ext
    ensures SplitExtRoot(stem + "." + ext) == stem
  {
    var p := stem + "." + ext;
    assert p[|stem|] == '.';
    assert forall i :: |stem| < i < |p| ==> p[i] == ext[i - |stem| - 1];
    assert forall i :: 0 <= i < |stem| ==> p[i] == stem[i];
    assert Seqs.LastIndex(p, '.') == |stem|;
    assert Seqs.LastIndex(p, '/') == -1;
    var k :| 0 <= k < |stem| && stem[k] != '.';
    assert p[k] != '.';
    assert p[..|stem|] == stem;
  }

  /** The keywords: the root of the file name with every `-` and `_`
      replaced by a space. */
  function Keywords(filename: string): (k: string)
    ensures |k| == |SplitExtRoot(filename)|
    ensures '-' !in k && '_' !in k
    ensures forall i :: 0 <= i < |k| ==>
      var c := SplitExtRoot(filename)[i];
      k[i] == if c == '-' || c == '_' then ' ' else c
  {
    Seqs.Replace(Seqs.Replace(SplitExtRoot(filename), '-', ' '), '_', ' ')
  }

  /** The five query templates, in order. */
  function QueryTemplates(k: string): (qs: seq<string>)
    ensures |qs| == 5
    ensures forall i :: 0 <= i < |qs| ==> |qs[i]| > |k| + 1 && qs[i][..|k| + 1] == k + " "
  {
    [k + " product photo", k + " clothing", k + " apparel", k + " ecommerce", k + " shop"]
  }

  /** `search_queries[:2]`: only the "product photo" and "clothing" queries
      are ever issued; the "apparel", "ecommerce" and "shop" ones never are. */
  function IssuedQueries(filename: string): (qs: seq<string>)
    ensures |qs| == 2
    ensures qs == QueryTemplates(Keywords(filename))[..2]
    ensures forall i :: 0 <= i < |qs| ==> qs[i] != QueryTemplates(Keywords(filename))[2]
  {
    Seqs.PyPrefix(QueryTemplates(Keywords(filename)), 2)
  }
}
