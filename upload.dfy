/** The upload-name check of the request handler: `allowed_file` and the
    `ALLOWED_EXTENSIONS` set it consults. A filename is accepted when it holds a
    dot and the text after its LAST dot, lower-cased, is an allowed extension. */
module Upload {
  import opened Wrappers

  /** `ALLOWED_EXTENSIONS`: the extensions the handler accepts, in lower case. */
  const AllowedExtensions: set<string> := {"png", "jpg", "jpeg"}

  /** Lower-casing of one character; only 'A'..'Z' change. */
  function LowerChar(c: char): char
  {
    if 'A' <= c <= 'Z' then (c as int - 'A' as int + 'a' as int) as char else c
  }

  /** `str.lower()` on the characters that can matter for the extension check:
      no upper-case letter is left, and every other character is kept in place. */
  function Lower(s: string): (r: string)
    ensures |r| == |s|
    ensures forall i :: 0 <= i < |r| ==> !('A' <= r[i] <= 'Z')
    ensures forall i :: 0 <= i < |s| && !('A' <= s[i] <= 'Z') ==> r[i] == s[i]
  {
    seq(|s|, i requires 0 <= i < |s| => LowerChar(s[i]))
  }

  /** Position of the last occurrence of `c` in `s`, or None when `c` does not occur. */
  function LastIndexOf(s: string, c: char): (r: Option<nat>)
    ensures r.None? <==> c !in s
    ensures r.Some? ==> r.value < |s| && s[r.value] == c && c !in s[r.value + 1..]
  {
    if s == [] then None
    else if s[|s| - 1] == c then Some(|s| - 1)
    else LastIndexOf(s[..|s| - 1], c)
  }

  /** `s.rsplit(sep, 1)`: the whole string when `sep` does not occur, otherwise
      the text before and the text after the last `sep`. */
  function RSplitOnce(s: string, sep: char): (parts: seq<string>)
    ensures sep !in s ==> parts == [s]
    ensures sep in s ==> |parts| == 2 && parts[0] + [sep] + parts[1] == s && sep !in parts[1]
  {
    match LastIndexOf(s, sep)
    case None => [s]
    case Some(i) =>
      assert s == s[..i] + [sep] + s[i + 1..];
      [s[..i], s[i + 1..]]
  }

  /** `allowed_file(filename)`. The dot test comes first, so the index `[1]`
      is only taken when the split produced two parts. An accepted name holds a
      dot followed by at least three characters. */
  predicate AllowedFile(filename: string): (ok: bool)
    ensures ok ==> '.' in filename && 4 <= |filename|
  {
    '.' in filename && Lower(RSplitOnce(filename, '.')[1]) in AllowedExtensions
  }

  /** A dot at position `i` with no dot after it is the one `rsplit` splits at. */
  lemma {:induction false} LastDotIsUnique(s: string, i: nat)
    requires i < |s| && s[i] == '.' && '.' !in s[i + 1..]
    ensures LastIndexOf(s, '.') == Some(i)
  {
    var r := LastIndexOf(s, '.');
    assert r.Some?;
  }

  /** `allowed_file` accepts exactly the names that split as `stem + "." + ext`
      where `ext` holds no dot and lower-cases to an allowed extension. */
  lemma {:induction false} AllowedFileIff(filename: string)
    ensures AllowedFile(filename) <==>
      exists i :: 0 <= i < |filename| && filename[i] == '.' && '.' !in filename[i + 1..]
        && Lower(filename[i + 1..]) in AllowedExtensions
  {
    if AllowedFile(filename) {
      var i := LastIndexOf(filename, '.').value;
      assert filename[i] == '.' && '.' !in filename[i + 1..];
    }
    if exists i :: 0 <= i < |filename| && filename[i] == '.' && '.' !in filename[i + 1..]
        && Lower(filename[i + 1..]) in AllowedExtensions {
      var i :| 0 <= i < |filename| && filename[i] == '.' && '.' !in filename[i + 1..]
        && Lower(filename[i + 1..]) in AllowedExtensions;
      LastDotIsUnique(filename, i);
    }
  }

  /** A name without a dot, the empty name among them, is refused. */
  lemma NoDotRejected(filename: string)
    requires '.' !in filename
    ensures !AllowedFile(filename)
  {
  }

  /** Only the text after the last dot decides: whatever the stem, even one
      holding dots, `stem.ext` is accepted exactly when `ext` is allowed. */
  lemma {:induction false} ExtensionDecides(stem: string, ext: string)
    requires '.' !in ext
    ensures AllowedFile(stem + "." + ext) <==> Lower(ext) in AllowedExtensions
  {
    var s := stem + "." + ext;
    assert s[|stem|] == '.';
    assert s[|stem| + 1..] == ext;
    LastDotIsUnique(s, |stem|);
  }

  /** A name ending in a dot has an empty extension and is refused. */
  lemma {:induction false} TrailingDotRejected(stem: string)
    ensures !AllowedFile(stem + ".")
  {
    ExtensionDecides(stem, "");
    assert Lower("") == "";
    assert "" !in AllowedExtensions;
  }

  /** `ExtensionDecides` for a name already known to split as `stem.ext`. */
  lemma {:induction false} SplitDecides(name: string, stem: string, ext: string)
    requires '.' !in ext && name == stem + "." + ext
    ensures AllowedFile(name) <==> Lower(ext) in AllowedExtensions
  {
    ExtensionDecides(stem, ext);
  }

  /** With several dots the last one decides: `a.gif.png` is accepted. */
  lemma {:induction false} LastExtensionCounts()
    ensures AllowedFile("a.gif.png")
  {
    assert Lower("png") == "png";
    SplitDecides("a.gif.png", "a.gif", "png");
  }

  /** ... and `a.png.gif` is refused. */
  lemma {:induction false} EarlierExtensionIgnored()
    ensures !AllowedFile("a.png.gif")
  {
    assert Lower("gif") == "gif";
    assert "gif" !in AllowedExtensions;
    SplitDecides("a.png.gif", "a.png", "gif");
  }

  /** Lower-casing never creates or removes a dot. */
  lemma LowerKeepsDots(s: string)
    ensures '.' in Lower(s) <==> '.' in s
  {
    if '.' in s {
      var i :| 0 <= i < |s| && s[i] == '.';
      assert Lower(s)[i] == '.';
    }
    if '.' in Lower(s) {
      var i :| 0 <= i < |s| && Lower(s)[i] == '.';
      assert s[i] == '.';
    }
  }

  /** Lower-casing twice is lower-casing once. */
  lemma LowerIdempotent(s: string)
    ensures Lower(Lower(s)) == Lower(s)
  {
  }

  /** `allowed_file` gives the same verdict on a name and on its lower-case form. */
  lemma {:induction false} AllowedFileOfLower(filename: string)
    ensures AllowedFile(Lower(filename)) == AllowedFile(filename)
  {
    var low := Lower(filename);
    LowerKeepsDots(filename);
    if '.' in filename {
      var i := LastIndexOf(filename, '.').value;
      assert low[i] == '.';
      assert '.' !in low[i + 1..] by {
        LowerKeepsDots(filename[i + 1..]);
        assert low[i + 1..] == Lower(filename[i + 1..]);
      }
      LastDotIsUnique(low, i);
      assert RSplitOnce(low, '.')[1] == low[i + 1..] == Lower(filename[i + 1..]);
      LowerIdempotent(filename[i + 1..]);
    }
  }

  /** The extension check ignores case: two names that agree once lower-cased
      (`x.PNG` and `x.png`, `x.Jpg` and `x.jpg`) get the same verdict. */
  lemma {:induction false} CaseInsensitive(a: string, b: string)
    requires Lower(a) == Lower(b)
    ensures AllowedFile(a) == AllowedFile(b)
  {
    AllowedFileOfLower(a);
    AllowedFileOfLower(b);
  }

  /** Upper- and mixed-case spellings of the allowed extensions are accepted. */
  lemma {:induction false} MixedCaseAccepted()
    ensures AllowedFile("x.PNG") && AllowedFile("x.Jpg") && AllowedFile("x.JPEG")
  {
    UpperPngAccepted();
    TitleJpgAccepted();
    UpperJpegAccepted();
  }

  /** `x.PNG` is accepted. */
  lemma {:induction false} UpperPngAccepted()
    ensures AllowedFile("x.PNG")
  {
    assert Lower("PNG") == "png";
    SplitDecides("x.PNG", "x", "PNG");
  }

  /** `x.Jpg` is accepted. */
  lemma {:induction false} TitleJpgAccepted()
    ensures AllowedFile("x.Jpg")
  {
    assert Lower("Jpg") == "jpg";
    SplitDecides("x.Jpg", "x", "Jpg");
  }

  /** `x.JPEG` is accepted. */
  lemma {:induction false} UpperJpegAccepted()
    ensures AllowedFile("x.JPEG")
  {
    assert Lower("JPEG") == "jpeg";
    SplitDecides("x.JPEG", "x", "JPEG");
  }
}
