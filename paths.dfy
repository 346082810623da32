/** The one piece of `pathlib` the ingestion script decides on: a file name's
    suffix, which picks the extractor for each entry of the documents
    directory. */
module Paths {

  /** `name.rfind('.')`: the index of the last dot, or -1 when there is none. */
  function LastDot(name: string): (r: int)
    ensures -1 <= r < |name|
    ensures r >= 0 ==> name[r] == '.'
    ensures forall k :: r < k < |name| ==> name[k] != '.'
    decreases |name|
  {
    if name == [] then -1
    else if name[|name| - 1] == '.' then |name| - 1
    else LastDot(name[..|name| - 1])
  }

  /** `PurePath.suffix`: from the last dot to the end of the name, but only
      when that dot is neither the first nor the last character; otherwise
      the empty string. */
  function Suffix(name: string): (r: string)
    ensures r == "" <==> |name| < 2 || '.' !in name[1..] || name[|name| - 1] == '.'
    ensures r != "" ==> && 2 <= |r| < |name| && r[0] == '.' && '.' !in r[1..]
                        && name[|name| - |r|..] == r
  {
    var i := LastDot(name);
    if 0 < i < |name| - 1 then
      assert name[i..][1..] == name[i + 1..];
      assert name[1..][i - 1] == '.';
      name[i..]
    else
      assert |name| >= 2 && '.' in name[1..] ==> i > 0 by {
        if |name| >= 2 && '.' in name[1..] {
          var k :| 0 <= k < |name[1..]| && name[1..][k] == '.';
          assert name[k + 1] == '.';
        }
      }
      ""
  }

  predicate EndsWith(s: string, tail: string) {
    |tail| <= |s| && s[|s| - |tail|..] == tail
  }

  /** For an extension made of a dot and at least one character that is not a
      dot (".pdf", ".docx", ".txt"), the suffix of a name is that extension
      exactly when the name ends with it, case and all, and has something
      before it. A file named ".pdf" has no suffix. */
  lemma SuffixIs(name: string, ext: string)
    requires |ext| >= 2 && ext[0] == '.' && '.' !in ext[1..]
    ensures Suffix(name) == ext <==> |name| > |ext| && EndsWith(name, ext)
  {
    var i := LastDot(name);
    if |name| > |ext| && EndsWith(name, ext) {
      var d := |name| - |ext|;
      assert name[d] == ext[0];
      forall k | d < k < |name| ensures name[k] != '.' {
        assert name[k] == ext[1..][k - d - 1];
      }
      assert i == d;
    }
    if Suffix(name) == ext {
      assert 0 < i < |name| - 1 && name[i..] == ext;
    }
  }
}
