/** File eligibility and the truncation policy of the loader:
    `is_text_file` with `os.path.splitext`, and the cut to `MAX_CONTENT_LENGTH`. */
module Loader {
  import opened Types

  /** The allow-list `TEXT_EXTS`. */
  const TextExts: set<string> := {".txt", ".js", ".py", ".json", ".md", ".ts", ".jsx", ".tsx", ".ets"}

  /** `p[lo..hi]` consists of dots only. */
  predicate AllDots(p: string, lo: int, hi: int)
    requires 0 <= lo <= hi <= |p|
  {
    forall k :: lo <= k < hi ==> p[k] == '.'
  }

  /** Where `os.path.splitext` cuts a POSIX path, or -1 when it finds no
      extension: the last dot, provided it lies in the last path component and
      is preceded there by something other than dots (so `.js` and `..js` have
      no extension). */
  function ExtIndex(p: string): (k: int)
    ensures -1 <= k < |p|
    ensures 0 <= k ==> p[k] == '.' && forall j :: k < j < |p| ==> p[j] != '.' && p[j] != '/'
    ensures 0 <= k ==> HasStem(p, k)
  {
    var sepIndex := LastIndexOf(p, '/');
    var dotIndex := LastIndexOf(p, '.');
    if dotIndex > sepIndex && !AllDots(p, sepIndex + 1, dotIndex) then
      assert HasStem(p, dotIndex) by {
        var i :| sepIndex + 1 <= i < dotIndex && p[i] != '.';
        assert p[i] != '/';
      }
      dotIndex
    else
      -1
  }

  /** Without an extension, no dot of the name is a place to cut: each one
      lacks a stem before it or has a '.' or '/' after it. */
  lemma NoCutPoint(p: string)
    requires ExtIndex(p) < 0
    ensures forall k :: 0 <= k < |p| && p[k] == '.' && HasStem(p, k) ==>
      exists j :: k < j < |p| && (p[j] == '.' || p[j] == '/')
  {
    forall k | 0 <= k < |p| && p[k] == '.' && HasStem(p, k)
      ensures exists j :: k < j < |p| && (p[j] == '.' || p[j] == '/')
    {
      if forall j :: k < j < |p| ==> p[j] != '.' && p[j] != '/' {
        ExtIndexAt(p, k);
        assert false;
      }
    }
  }

  /** `os.path.splitext`: root and extension, which concatenate back to the
      path. A non-empty extension is a single '.' followed by neither '.' nor
      '/', after a base name that is not all dots; an empty one means that no
      dot of the path qualifies. */
  function SplitExt(p: string): (parts: (string, string))
    ensures parts.0 + parts.1 == p
    ensures parts.1 != [] ==>
      parts.1[0] == '.' && HasStem(p, |parts.0|) &&
      forall j :: 1 <= j < |parts.1| ==> parts.1[j] != '.' && parts.1[j] != '/'
    ensures parts.1 == [] ==>
      forall k :: 0 <= k < |p| && p[k] == '.' && HasStem(p, k) ==>
        exists j :: k < j < |p| && (p[j] == '.' || p[j] == '/')
  {
    var k := ExtIndex(p);
    if 0 <= k then
      assert p[..k] + p[k..] == p;
      (p[..k], p[k..])
    else
      NoCutPoint(p);
      (p, [])
  }

  const Capitals: string := "ABCDEFGHIJKLMNOPQRSTUVWXYZ"
  const Smalls: string := "abcdefghijklmnopqrstuvwxyz"

  function LowerChar(c: char): char {
    if 'A' <= c <= 'Z' then (c as int + 32) as char else c
  }

  /** A capital letter lower-cases to the small letter at the same place in
      the alphabet. */
  lemma LowerCharAlphabet(i: nat)
    requires i < 26
    ensures Capitals[i] as int == 'A' as int + i && LowerChar(Capitals[i]) == Smalls[i]
  {
  }

  /** `str.lower`, on ASCII letters: the result has no capitals, each capital
      becomes its small letter, and every other character is kept. */
  function Lower(s: string): (r: string)
    ensures |r| == |s|
    ensures forall k :: 0 <= k < |r| ==> !('A' <= r[k] <= 'Z')
    ensures forall k, i :: 0 <= k < |s| && 0 <= i < 26 && s[k] == Capitals[i] ==> r[k] == Smalls[i]
    ensures forall k :: 0 <= k < |s| && !('A' <= s[k] <= 'Z') ==> r[k] == s[k]
  {
    var r := seq(|s|, k requires 0 <= k < |s| => LowerChar(s[k]));
    assert forall i :: 0 <= i < 26 ==> LowerChar(Capitals[i]) == Smalls[i] by {
      forall i | 0 <= i < 26 ensures LowerChar(Capitals[i]) == Smalls[i] {
        LowerCharAlphabet(i);
      }
    }
    r
  }

  /** `is_text_file`: the lower-cased extension is on the allow-list. An
      eligible name has a proper stem and an extension of three to five
      characters. */
  predicate IsTextFile(name: string)
    ensures IsTextFile(name) ==>
      HasStem(name, |SplitExt(name).0|) && 3 <= |SplitExt(name).1| <= 5
  {
    var ext := SplitExt(name).1;
    var eligible := Lower(ext) in TextExts;
    assert eligible ==> 3 <= |ext| <= 5 by {
      if eligible {
        TextExtShape(Lower(ext));
      }
    }
    eligible
  }

  /** `name[..k]` has a character other than '.' after its last '/': the base
      name before position `k` is neither empty nor all dots. */
  predicate HasStem(name: string, k: int)
    requires 0 <= k <= |name|
  {
    exists i :: 0 <= i < k && name[i] != '.' && name[i] != '/' && forall j :: i < j < k ==> name[j] != '/'
  }

  lemma TextExtShape(e: string)
    requires e in TextExts
    ensures 3 <= |e| <= 5 && e[0] == '.'
    ensures forall j :: 1 <= j < |e| ==> 'a' <= e[j] <= 'z'
  {
  }

  /** The split point of `os.path.splitext`: a '.' with no '.' or '/' after it
      and a proper stem before it. */
  lemma ExtIndexAt(name: string, k: nat)
    requires k < |name| && name[k] == '.' && HasStem(name, k)
    requires forall j :: k < j < |name| ==> name[j] != '.' && name[j] != '/'
    ensures ExtIndex(name) == k
  {
    var sepIndex := LastIndexOf(name, '/');
    var dotIndex := LastIndexOf(name, '.');
    assert dotIndex == k;
    assert sepIndex < k;
    var i :| 0 <= i < k && name[i] != '.' && name[i] != '/' && forall j :: i < j < k ==> name[j] != '/';
    assert i > sepIndex;
    assert !AllDots(name, sepIndex + 1, dotIndex);
  }

  /** Every eligible name has an allowed suffix after a proper stem. */
  lemma TextFileHasStem(name: string)
    requires IsTextFile(name)
    ensures exists k :: 0 <= k < |name| && Lower(name[k..]) in TextExts && HasStem(name, k)
  {
    var sepIndex := LastIndexOf(name, '/');
    var dotIndex := LastIndexOf(name, '.');
    TextExtShape(Lower(SplitExt(name).1));
    assert ExtIndex(name) == dotIndex;
    assert dotIndex > sepIndex && !AllDots(name, sepIndex + 1, dotIndex);
    var i :| sepIndex + 1 <= i < dotIndex && name[i] != '.';
    assert name[i] != '/';
    assert HasStem(name, dotIndex);
  }

  /** Every allowed suffix after a proper stem is the extension, so the name
      is eligible. */
  lemma StemmedSuffixIsText(name: string, k: nat)
    requires k < |name| && Lower(name[k..]) in TextExts && HasStem(name, k)
    ensures IsTextFile(name)
  {
    var e := Lower(name[k..]);
    TextExtShape(e);
    assert name[k] == '.' by { assert e[0] == LowerChar(name[k]); }
    forall j | k < j < |name|
      ensures name[j] != '.' && name[j] != '/'
    {
      assert e[j - k] == LowerChar(name[j]);
    }
    ExtIndexAt(name, k);
    assert SplitExt(name).1 == name[k..];
  }

  /** A name is eligible exactly when it splits into a stem whose base name is
      not all dots and a suffix that lower-cases to an allowed extension. */
  lemma IsTextFileIff(name: string)
    ensures IsTextFile(name) <==>
      exists k :: 0 <= k < |name| && Lower(name[k..]) in TextExts && HasStem(name, k)
  {
    if IsTextFile(name) {
      TextFileHasStem(name);
    }
    if k :| 0 <= k < |name| && Lower(name[k..]) in TextExts && HasStem(name, k) {
      StemmedSuffixIsText(name, k);
    }
  }

  /** Concrete cases: the case of the extension is ignored, only the last
      extension counts, other extensions are not on the list, and a dot-file
      has no extension at all. */
  lemma UpperCaseExtensionIsText()
    ensures IsTextFile("A.JS")
  {
    assert HasStem("A.JS", 1) by { assert "A.JS"[0] != '.'; }
    ExtIndexAt("A.JS", 1);
    assert Lower(".JS") == ".js";
  }

  lemma LastExtensionCounts()
    ensures IsTextFile("index.min.ts")
  {
    assert HasStem("index.min.ts", 9) by { assert "index.min.ts"[8] != '.'; }
    ExtIndexAt("index.min.ts", 9);
    assert Lower(".ts") == ".ts";
  }

  lemma OtherExtensionIsNotText()
    ensures !IsTextFile("notes.pdf")
  {
    assert HasStem("notes.pdf", 5) by { assert "notes.pdf"[4] != '.'; }
    ExtIndexAt("notes.pdf", 5);
    assert Lower(".pdf") == ".pdf";
  }

  lemma DotFileIsNotText()
    ensures !IsTextFile(".js")
  {
    assert LastIndexOf(".js", '.') == 0;
    assert AllDots(".js", 0, 0);
  }

  /** The truncation step: cut content longer than the limit to its prefix of
      exactly that length. */
  function Truncate(code: string): (r: string)
    ensures |r| == if |code| <= MaxContentLength then |code| else MaxContentLength
    ensures r <= code
  {
    if |code| > MaxContentLength then code[..MaxContentLength] else code
  }

  /** Content within the limit is sent unchanged; truncating twice is the
      same as truncating once. */
  lemma TruncateKeepsShort(code: string)
    ensures |code| <= MaxContentLength ==> Truncate(code) == code
    ensures Truncate(Truncate(code)) == Truncate(code)
  {
  }
}
