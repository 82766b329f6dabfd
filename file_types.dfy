/**
 The upload file-type filter of the extraction backend: the set of accepted
 extensions and the predicate that decides, from a client-supplied filename
 alone, whether an upload may proceed.

 Python's `str.lower` is modelled on ASCII letters only.
 */
module FileTypes {

  datatype Option<T> = None | Some(value: T)

  /** The extensions an upload may carry, written in lower case. */
  const AllowedExtensions: set<string> := {"txt", "pdf", "png", "jpg", "jpeg", "gif"}

  predicate IsUpperAscii(c: char) { 'A' <= c <= 'Z' }

  predicate IsLowerAscii(c: char) { 'a' <= c <= 'z' }

  function LowerChar(c: char): char
  {
    if IsUpperAscii(c) then (c as int + 32) as char else c
  }

  function UpperChar(c: char): char
  {
    if IsLowerAscii(c) then (c as int - 32) as char else c
  }

  /**
   ASCII model of `str.lower`: no upper-case letter is left, every
   character that is not an upper-case letter stays as it was, and each
   character keeps its upper-case form, so `A` becomes `a`.
   */
  function Lower(s: string): (r: string)
    ensures |r| == |s|
    ensures forall i :: 0 <= i < |r| ==> !IsUpperAscii(r[i])
    ensures forall i :: 0 <= i < |s| && !IsUpperAscii(s[i]) ==> r[i] == s[i]
    ensures forall i :: 0 <= i < |s| ==> UpperChar(r[i]) == UpperChar(s[i])
  {
    seq(|s|, i requires 0 <= i < |s| => LowerChar(s[i]))
  }

  /**
   ASCII model of `str.upper`: no lower-case letter is left, every
   character that is not a lower-case letter stays as it was, and each
   character keeps its lower-case form, so `a` becomes `A`.
   */
  function Upper(s: string): (r: string)
    ensures |r| == |s|
    ensures forall i :: 0 <= i < |r| ==> !IsLowerAscii(r[i])
    ensures forall i :: 0 <= i < |s| && !IsLowerAscii(s[i]) ==> r[i] == s[i]
    ensures forall i :: 0 <= i < |s| ==> LowerChar(r[i]) == LowerChar(s[i])
  {
    seq(|s|, i requires 0 <= i < |s| => UpperChar(s[i]))
  }

  /** Lower-casing undoes upper-casing: a name and its upper-cased form lower to the same text. */
  lemma LowerOfUpper(s: string)
    ensures Lower(Upper(s)) == Lower(s)
  {
    assert forall i :: 0 <= i < |s| ==> Lower(Upper(s))[i] == Lower(s)[i];
  }

  /** Lower-casing twice is lower-casing once. */
  lemma LowerIsIdempotent(s: string)
    ensures Lower(Lower(s)) == Lower(s)
  {
    assert forall i :: 0 <= i < |s| ==> Lower(Lower(s))[i] == Lower(s)[i];
  }

  /** Lower-casing neither creates nor removes a dot. */
  lemma LowerKeepsDots(s: string, i: nat)
    requires i < |s|
    ensures Lower(s)[i] == '.' <==> s[i] == '.'
  {
  }

  /**
   The position of the last occurrence of `c` in `s`: the place where a
   right split with at most one cut breaks the string.
   */
  function LastIndexOf(s: string, c: char): (r: Option<nat>)
    ensures r.None? <==> c !in s
    ensures r.Some? ==> r.value < |s| && s[r.value] == c && c !in s[r.value + 1..]
  {
    if |s| == 0 then None
    else if s[|s| - 1] == c then Some(|s| - 1)
    else
      var r := LastIndexOf(s[..|s| - 1], c);
      if r.Some? then
        assert s[r.value + 1..] == s[..|s| - 1][r.value + 1..] + [s[|s| - 1]];
        r
      else
        assert s == s[..|s| - 1] + [s[|s| - 1]];
        r
  }

  /**
   `s.rsplit(sep, 1)`: the whole string when `sep` does not occur in it,
   otherwise the text before and the text after the last `sep`.
   */
  function RSplitOnce(s: string, sep: char): (parts: seq<string>)
    ensures sep !in s ==> parts == [s]
    ensures sep in s ==> |parts| == 2 && s == parts[0] + [sep] + parts[1] && sep !in parts[1]
  {
    match LastIndexOf(s, sep)
    case None => [s]
    case Some(i) =>
      assert s == s[..i] + [sep] + s[i + 1..];
      [s[..i], s[i + 1..]]
  }

  /**
   `allowed_file(filename)`: the name contains a dot and the text after its
   last dot, lower-cased, is one of the allowed extensions. The dot test
   guards the index: without a dot the split has a single piece.
   */
  predicate AllowedFile(filename: string): (ok: bool)
    ensures ok ==> '.' in filename && 4 <= |filename|
  {
    '.' in filename && Lower(Extension(filename)) in AllowedExtensions
  }

  /** `filename.rsplit('.', 1)[1]`: the text after the last dot of a name that has one. */
  function Extension(filename: string): (ext: string)
    requires '.' in filename
    ensures '.' !in ext
    ensures exists stem :: filename == stem + "." + ext
  {
    var parts := RSplitOnce(filename, '.');
    assert filename == parts[0] + "." + parts[1];
    parts[1]
  }

  /**
   Splitting a string at a separator that does not occur in the right-hand
   piece is unique: two such splits agree.
   */
  lemma {:induction false} SplitAtLastIsUnique(a: string, b: string, a': string, b': string, sep: char)
    requires a + [sep] + b == a' + [sep] + b'
    requires sep !in b && sep !in b'
    ensures a == a' && b == b'
  {
    var s := a + [sep] + b;
    assert s[|a|] == sep && s[|a'|] == sep;
    assert forall k :: |a| < k < |s| ==> s[k] == b[k - |a| - 1] != sep;
    assert forall k :: |a'| < k < |s| ==> s[k] == b'[k - |a'| - 1] != sep;
    assert |a| == |a'|;
    assert a == s[..|a|] == a';
    assert b == s[|a| + 1..] == b';
  }

  /**
   A dot with no dot after it is where `rsplit('.', 1)` cuts: the extension
   is the text after it.
   */
  lemma {:induction false} CutAtLastDot(filename: string, i: nat)
    requires i < |filename| && filename[i] == '.' && '.' !in filename[i + 1..]
    ensures Extension(filename) == filename[i + 1..]
    ensures AllowedFile(filename) <==> Lower(filename[i + 1..]) in AllowedExtensions
  {
    var parts := RSplitOnce(filename, '.');
    assert filename == filename[..i] + "." + filename[i + 1..];
    SplitAtLastIsUnique(parts[0], parts[1], filename[..i], filename[i + 1..], '.');
    assert Extension(filename) == parts[1];
  }

  /**
   The extension tested is exactly the text after the last dot, whatever the
   stem holds (dots included).
   */
  lemma {:induction false} JudgedByLastSuffix(stem: string, ext: string)
    requires '.' !in ext
    ensures Extension(stem + "." + ext) == ext
    ensures AllowedFile(stem + "." + ext) <==> Lower(ext) in AllowedExtensions
  {
    var f := stem + "." + ext;
    assert f[|stem|] == '.' && f[|stem| + 1..] == ext;
    CutAtLastDot(f, |stem|);
  }

  /** A name without any dot is refused. */
  lemma NoDotRejected(filename: string)
    requires '.' !in filename
    ensures !AllowedFile(filename)
  {
  }

  /**
   The predicate holds exactly when some dot of the name has no dot after it
   and the lower-cased text after it is an allowed extension.
   */
  lemma {:induction false} AllowedFileCharacterised(filename: string)
    ensures AllowedFile(filename) <==>
      exists i :: 0 <= i < |filename| && filename[i] == '.' && '.' !in filename[i + 1..]
               && Lower(filename[i + 1..]) in AllowedExtensions
  {
    if AllowedFile(filename) {
      var i := LastIndexOf(filename, '.').value;
      CutAtLastDot(filename, i);
    }
    if exists i :: 0 <= i < |filename| && filename[i] == '.' && '.' !in filename[i + 1..]
                && Lower(filename[i + 1..]) in AllowedExtensions {
      var i :| 0 <= i < |filename| && filename[i] == '.' && '.' !in filename[i + 1..]
             && Lower(filename[i + 1..]) in AllowedExtensions;
      CutAtLastDot(filename, i);
    }
  }

  /** A name ending in a dot has an empty extension and is refused. */
  lemma {:induction false} TrailingDotRejected(stem: string)
    ensures !AllowedFile(stem + ".")
  {
    assert stem + "." == stem + "." + "";
    JudgedByLastSuffix(stem, "");
  }

  /**
   Any stem, the empty one included, followed by a dot and an allowed
   extension is accepted: `.txt` is.
   */
  lemma {:induction false} AllowedExtensionAccepted(stem: string, ext: string)
    requires ext in AllowedExtensions
    ensures AllowedFile(stem + "." + ext)
  {
    assert Lower(ext) == ext by {
      assert forall i :: 0 <= i < |ext| ==> IsLowerAscii(ext[i]);
    }
    JudgedByLastSuffix(stem, ext);
  }

  /** Only the last suffix counts: `a.tar.pdf` is judged by `pdf` and accepted. */
  lemma {:induction false} InnerSuffixIgnored()
    ensures AllowedFile("a.tar.pdf")
  {
    assert "a.tar.pdf" == "a.tar" + "." + "pdf";
    AllowedExtensionAccepted("a.tar", "pdf");
  }

  /** Only the last suffix counts: `a.pdf.exe` is judged by `exe` and refused. */
  lemma {:induction false} LastSuffixDecides()
    ensures !AllowedFile("a.pdf.exe")
  {
    var ext := "exe";
    assert "a.pdf.exe" == "a.pdf" + "." + ext;
    JudgedByLastSuffix("a.pdf", ext);
    assert Lower(ext)[0] == 'e';
    assert forall x :: x in AllowedExtensions ==> x[0] != 'e';
  }

  /**
   A name that is only a dot and an allowed extension, such as `.txt`, is
   accepted: the empty stem before the dot is never examined.
   */
  lemma {:induction false} BareExtensionAccepted()
    ensures forall ext :: ext in AllowedExtensions ==> AllowedFile("." + ext)
  {
    forall ext | ext in AllowedExtensions ensures AllowedFile("." + ext) {
      assert "." + ext == "" + "." + ext;
      AllowedExtensionAccepted("", ext);
    }
  }

  /**
   Two names with the same lower-cased form get the same verdict. Their
   dots sit in the same places, because lower-casing leaves dots alone.
   */
  lemma {:induction false} SameVerdictUnderCaseChange(filename: string, other: string)
    requires Lower(other) == Lower(filename)
    ensures AllowedFile(other) <==> AllowedFile(filename)
  {
    assert |other| == |filename|;
    forall i | 0 <= i < |filename| ensures other[i] == '.' <==> filename[i] == '.' {
      LowerKeepsDots(other, i);
      LowerKeepsDots(filename, i);
    }
    if '.' in filename {
      var k := LastIndexOf(filename, '.').value;
      var ext, ext' := filename[k + 1..], other[k + 1..];
      assert other[k] == '.';
      assert '.' !in ext' by {
        forall j | 0 <= j < |ext'| ensures ext'[j] != '.' {
          assert ext'[j] == other[k + 1 + j] && ext[j] == filename[k + 1 + j];
        }
      }
      assert Lower(ext') == Lower(ext) by {
        forall j | 0 <= j < |ext| ensures Lower(ext')[j] == Lower(ext)[j] {
          assert Lower(other)[k + 1 + j] == Lower(filename)[k + 1 + j];
        }
      }
      CutAtLastDot(filename, k);
      CutAtLastDot(other, k);
    } else {
      assert '.' !in other by {
        forall j | 0 <= j < |other| ensures other[j] != '.' {
          assert filename[j] != '.';
        }
      }
    }
  }

  /** Acceptance is case-insensitive: upper-casing a name keeps its verdict. */
  lemma {:induction false} UpperCaseSameVerdict(filename: string)
    ensures AllowedFile(Upper(filename)) <==> AllowedFile(filename)
  {
    LowerOfUpper(filename);
    SameVerdictUnderCaseChange(filename, Upper(filename));
  }

  /** Lower-casing a name keeps its verdict. */
  lemma {:induction false} LowerCaseSameVerdict(filename: string)
    ensures AllowedFile(Lower(filename)) <==> AllowedFile(filename)
  {
    LowerIsIdempotent(filename);
    SameVerdictUnderCaseChange(filename, Lower(filename));
  }
}
