/**
 * How the upload route names a stored object: `safeName` (server.js:32-34)
 * and the object-name expression at server.js:40-42,
 *   `${Date.now()}-${safeName(path.basename(orig, ext))}${ext}`.
 * The `sanitize-filename` package is a parameter: nothing is assumed about it.
 */
module Naming {
  import opened JsText
  import opened NodePath

  // ---------------------------------------------------------------------
  // safeName

  /** The input without its leading run of whitespace. */
  function DropWhitespace(s: string): (r: string)
    ensures |r| <= |s| && r == s[|s| - |r|..]
    ensures r == [] || !IsJsWhitespace(r[0])
    ensures forall i :: 0 <= i < |s| - |r| ==> IsJsWhitespace(s[i])
  {
    if s != [] && IsJsWhitespace(s[0]) then DropWhitespace(s[1..]) else s
  }

  /** `s.replace(/\s+/g, '_')`. */
  function CollapseWhitespace(s: string): (r: string)
    ensures NoWhitespace(r)
    ensures |r| <= |s|
    decreases |s|
  {
    if s == [] then []
    else if IsJsWhitespace(s[0]) then "_" + CollapseWhitespace(DropWhitespace(s))
    else [s[0]] + CollapseWhitespace(s[1..])
  }

  /** `safeName(name)`: sanitize, then every whitespace run becomes one `_`. */
  function SafeName(sanitize: string -> string, name: string): (r: string)
    ensures NoWhitespace(r)
    ensures |r| <= |sanitize(name)|
  {
    CollapseWhitespace(sanitize(name))
  }

  /** Text without whitespace passes through unchanged. */
  lemma {:induction false} CollapseKeepsWhitespaceFree(s: string)
    requires NoWhitespace(s)
    ensures CollapseWhitespace(s) == s
    decreases |s|
  {
    if s != [] {
      assert !IsJsWhitespace(s[0]);
      CollapseKeepsWhitespaceFree(s[1..]);
    }
  }

  /** Applying the replacement twice changes nothing more. */
  lemma CollapseIdempotent(s: string)
    ensures CollapseWhitespace(CollapseWhitespace(s)) == CollapseWhitespace(s)
  {
    CollapseKeepsWhitespaceFree(CollapseWhitespace(s));
  }

  predicate EndsOutsideRun(u: string)
  {
    u == [] || !IsJsWhitespace(u[|u| - 1])
  }

  lemma {:induction false} DropWhitespaceConcat(u: string, x: string)
    requires u != [] && EndsOutsideRun(u)
    ensures DropWhitespace(u + x) == DropWhitespace(u) + x
    decreases |u|
  {
    if IsJsWhitespace(u[0]) {
      assert |u| > 1;
      assert (u + x)[1..] == u[1..] + x;
      DropWhitespaceConcat(u[1..], x);
    }
  }

  /** Text that does not end inside a whitespace run is rewritten independently of what follows. */
  lemma {:induction false} CollapseConcat(u: string, x: string)
    requires EndsOutsideRun(u)
    ensures CollapseWhitespace(u + x) == CollapseWhitespace(u) + CollapseWhitespace(x)
    decreases |u|, 1
  {
    if u == [] {
      assert u + x == x;
    } else if IsJsWhitespace(u[0]) {
      CollapseConcatRun(u, x);
    } else {
      CollapseConcatOther(u, x);
    }
  }

  lemma {:induction false} CollapseConcatRun(u: string, x: string)
    requires EndsOutsideRun(u) && u != [] && IsJsWhitespace(u[0])
    ensures CollapseWhitespace(u + x) == CollapseWhitespace(u) + CollapseWhitespace(x)
    decreases |u|, 0
  {
    var d := DropWhitespace(u);
    assert (u + x)[0] == u[0];
    assert DropWhitespace(u + x) == d + x by { DropWhitespaceConcat(u, x); }
    assert EndsOutsideRun(d);
    CollapseConcat(d, x);
    assert "_" + (CollapseWhitespace(d) + CollapseWhitespace(x))
        == ("_" + CollapseWhitespace(d)) + CollapseWhitespace(x);
  }

  lemma {:induction false} CollapseConcatOther(u: string, x: string)
    requires EndsOutsideRun(u) && u != [] && !IsJsWhitespace(u[0])
    ensures CollapseWhitespace(u + x) == CollapseWhitespace(u) + CollapseWhitespace(x)
    decreases |u|, 0
  {
    assert (u + x)[0] == u[0];
    assert (u + x)[1..] == u[1..] + x;
    CollapseConcat(u[1..], x);
    assert [u[0]] + (CollapseWhitespace(u[1..]) + CollapseWhitespace(x))
        == ([u[0]] + CollapseWhitespace(u[1..])) + CollapseWhitespace(x);
  }

  lemma {:induction false} DropWholeRun(w: string, v: string)
    requires forall i :: 0 <= i < |w| ==> IsJsWhitespace(w[i])
    requires v == [] || !IsJsWhitespace(v[0])
    ensures DropWhitespace(w + v) == v
    decreases |w|
  {
    if w == [] {
      assert w + v == v;
    } else {
      assert (w + v)[1..] == w[1..] + v;
      DropWholeRun(w[1..], v);
    }
  }

  /** A whole run of whitespace at the front becomes one `_`. */
  lemma LeadingRunBecomesOneUnderscore(w: string, v: string)
    requires w != [] && forall i :: 0 <= i < |w| ==> IsJsWhitespace(w[i])
    requires v == [] || !IsJsWhitespace(v[0])
    ensures CollapseWhitespace(w + v) == "_" + CollapseWhitespace(v)
  {
    assert (w + v)[0] == w[0];
    DropWholeRun(w, v);
  }

  /**
   * Every maximal run of whitespace, however long, is replaced by exactly one
   * `_`, and the text on either side is rewritten on its own.
   */
  lemma MaximalRunBecomesOneUnderscore(u: string, w: string, v: string)
    requires EndsOutsideRun(u)
    requires w != [] && forall i :: 0 <= i < |w| ==> IsJsWhitespace(w[i])
    requires v == [] || !IsJsWhitespace(v[0])
    ensures CollapseWhitespace(u + w + v) == CollapseWhitespace(u) + "_" + CollapseWhitespace(v)
  {
    LeadingRunBecomesOneUnderscore(w, v);
    ConcatAssoc(u, w, v);
    CollapseConcat(u, w + v);
    ConcatAssoc(CollapseWhitespace(u), "_", CollapseWhitespace(v));
  }

  // ---------------------------------------------------------------------
  // The object name built by the upload route

  /** `req.file.originalname || 'file'` (server.js:40). */
  function OriginalName(originalname: Option<string>): (orig: string)
    ensures orig != []
    ensures originalname.Some? && originalname.value != [] ==> orig == originalname.value
    ensures originalname.None? || originalname.value == [] ==> orig == "file"
  {
    OrElse(originalname, "file")
  }

  /**
   * `path.extname(orig).toLowerCase()` (server.js:41): empty, or one `.`
   * followed by characters that are neither `.` nor upper-case letters.
   */
  function UploadExtension(orig: string): (ext: string)
    ensures ext == [] || (ext[0] == '.' && '.' !in ext[1..])
    ensures forall i :: 0 <= i < |ext| ==> !IsUpper(ext[i])
    ensures |ext| == |Extname(orig)|
    ensures ext == Lower(Extname(orig))
  {
    var e := Extname(orig);
    if e == [] then []
    else
      assert Lower(e)[1..] == Lower(e[1..]);
      LowerKeepsDots(e[1..]);
      Lower(e)
  }

  /**
   * The object name of server.js:42: the decimal timestamp, a hyphen, the
   * safe base name and the lower-cased extension.
   */
  function UploadObjectName(now: nat, originalname: Option<string>, sanitize: string -> string): (name: string)
    ensures var k := |Decimal(now)|;
      && |name| > k
      && name[..k] == Decimal(now) && AllDigits(name[..k]) && name[k] == '-'
      && IsSuffix(UploadExtension(OriginalName(originalname)), name)
  {
    var orig := OriginalName(originalname);
    var ext := UploadExtension(orig);
    var d := Decimal(now);
    var name := d + "-" + SafeName(sanitize, Basename(orig, ext)) + ext;
    JoinedParts(d, SafeName(sanitize, Basename(orig, ext)), ext);
    name
  }

  lemma JoinedParts(d: string, b: string, e: string)
    ensures var n := d + "-" + b + e;
      |n| > |d| && n[..|d|] == d && n[|d|] == '-' && n[|n| - |e|..] == e
  {
  }

  /**
   * The parts of the name: everything between the hyphen after the timestamp
   * and the extension is the safe base name, which holds no whitespace.
   */
  lemma UploadObjectNameLayout(now: nat, originalname: Option<string>, sanitize: string -> string)
    ensures var orig := OriginalName(originalname);
      var ext := UploadExtension(orig);
      var base := SafeName(sanitize, Basename(orig, ext));
      && UploadObjectName(now, originalname, sanitize) == Decimal(now) + "-" + base + ext
      && NoWhitespace(base)
      && (ext == [] || (ext[0] == '.' && '.' !in ext[1..]))
  {
  }

  lemma FileHasNoExtension()
    ensures LastComponent("file") == "file"
    ensures Extname("file") == []
  {
    assert TrimTrailingSlashes("file") == "file";
    assert '/' !in "file";
    assert '.' !in "file"[1..];
  }

  /** A missing or empty original name uploads as `<ts>-<safeName('file')>`. */
  lemma MissingOriginalNameDefaultsToFile(now: nat, originalname: Option<string>, sanitize: string -> string)
    requires originalname.None? || originalname.value == []
    ensures UploadExtension(OriginalName(originalname)) == []
    ensures UploadObjectName(now, originalname, sanitize) == Decimal(now) + "-" + SafeName(sanitize, "file")
  {
    FileHasNoExtension();
    assert Basename("file", []) == "file";
  }

  /**
   * `path.basename(orig, ext)` compares case-sensitively: the extension is cut
   * off the base only when the client already wrote it in lower case;
   * otherwise the last component stays whole and the lower-cased extension is
   * appended after it.
   */
  lemma ExtensionStrippedOnlyWhenLowercase(orig: string)
    ensures var c := LastComponent(orig);
      var e := Extname(orig);
      var base := Basename(orig, UploadExtension(orig));
      && (e == [] ==> base == c)
      && (e != [] && Lower(e) == e ==> base + e == c)
      && (e != [] && Lower(e) != e ==> base == c)
  {
    var c := LastComponent(orig);
    var e := Extname(orig);
    var ext := UploadExtension(orig);
    if e != [] {
      assert c[|c| - |e|..] == e;
      if Lower(e) != e {
        assert !IsSuffix(ext, c);
      }
    }
  }

  /** The extension is removed from the base exactly when it was already lower case. */
  lemma ExtensionStrippedIffLowercase(orig: string)
    requires Extname(orig) != []
    ensures Basename(orig, UploadExtension(orig)) != LastComponent(orig)
        <==> Lower(Extname(orig)) == Extname(orig)
  {
    ExtensionStrippedOnlyWhenLowercase(orig);
  }

  /**
   * For a plain file name `stem.x` (no `/`, no `.` in `x`), the stored name is
   * `<ts>-<safeName(stem)>.<x lower-cased>` when `x` is already lower case,
   * and `<ts>-<safeName(stem.x)>.<x lower-cased>` otherwise.
   */
  lemma PlainNameUpload(now: nat, sanitize: string -> string, stem: string, x: string)
    requires stem != [] && !(stem == "." && x == [])
    requires '/' !in stem && '/' !in x && '.' !in x
    ensures var orig := stem + "." + x;
      UploadObjectName(now, Some(orig), sanitize)
        == Decimal(now) + "-" + SafeName(sanitize, if Lower(x) == x then stem else orig) + "." + Lower(x)
  {
    var orig := stem + "." + x;
    var ext := "." + Lower(x);
    var base := if Lower(x) == x then stem else orig;
    assert UploadExtension(orig) == ext by { PlainNameUploadExtension(stem, x); }
    assert Basename(orig, ext) == base by {
      if Lower(x) == x { PlainNameBaseLower(stem, x); } else { PlainNameBaseUpper(stem, x); }
    }
    assert OriginalName(Some(orig)) == orig;
    UploadObjectNameLayout(now, Some(orig), sanitize);
    ConcatAssoc(Decimal(now) + "-" + SafeName(sanitize, base), ".", Lower(x));
  }

  lemma PlainNameUploadExtension(stem: string, x: string)
    requires stem != [] && !(stem == "." && x == [])
    requires '/' !in stem && '/' !in x && '.' !in x
    ensures UploadExtension(stem + "." + x) == "." + Lower(x)
  {
    assert Extname(stem + "." + x) == "." + x by { PlainNameExtension(stem, x); }
    LowerConcat(".", x);
  }

  lemma PlainNameBaseLower(stem: string, x: string)
    requires stem != [] && !(stem == "." && x == [])
    requires '/' !in stem && '/' !in x && '.' !in x
    requires Lower(x) == x
    ensures Basename(stem + "." + x, "." + x) == stem
  {
    var orig, e := stem + "." + x, "." + x;
    assert UploadExtension(orig) == e && Extname(orig) == e && LastComponent(orig) == orig by {
      PlainNameExtension(stem, x);
      LowerConcat(".", x);
    }
    var base := Basename(orig, e);
    assert base + e == orig by { ExtensionStrippedOnlyWhenLowercase(orig); }
    ConcatAssoc(stem, ".", x);
    ConcatCancelRight(base, stem, e);
  }

  lemma PlainNameBaseUpper(stem: string, x: string)
    requires stem != [] && !(stem == "." && x == [])
    requires '/' !in stem && '/' !in x && '.' !in x
    requires Lower(x) != x
    ensures Basename(stem + "." + x, "." + Lower(x)) == stem + "." + x
  {
    var orig, e := stem + "." + x, "." + x;
    assert UploadExtension(orig) == "." + Lower(x) && Extname(orig) == e && LastComponent(orig) == orig by {
      PlainNameExtension(stem, x);
      LowerConcat(".", x);
    }
    assert Lower(e) != e by {
      LowerConcat(".", x);
      if Lower(e) == e { ConcatCancelLeft(".", Lower(x), x); }
    }
    ExtensionStrippedOnlyWhenLowercase(orig);
  }

  lemma PlainNameComponent(stem: string, x: string)
    requires stem != []
    requires '/' !in stem && '/' !in x && '.' !in x
    ensures LastComponent(stem + "." + x) == stem + "." + x
  {
    var p := stem + "." + x;
    assert p[|p| - 1] != '/' by {
      if x == [] { assert p[|p| - 1] == '.'; } else { assert p[|p| - 1] == x[|x| - 1]; }
    }
    assert TrimTrailingSlashes(p) == p;
    assert '/' !in p by {
      forall i | 0 <= i < |p| ensures p[i] != '/' {
        if i < |stem| { assert p[i] == stem[i]; }
        else if i > |stem| { assert p[i] == x[i - |stem| - 1]; }
      }
    }
  }

  lemma PlainNameExtension(stem: string, x: string)
    requires stem != [] && !(stem == "." && x == [])
    requires '/' !in stem && '/' !in x && '.' !in x
    ensures LastComponent(stem + "." + x) == stem + "." + x
    ensures Extname(stem + "." + x) == "." + x
  {
    var p := stem + "." + x;
    PlainNameComponent(stem, x);
    assert LastIndexOf(p, '.') == Some(|stem|) by {
      assert p[|stem|] == '.' && p[|stem| + 1..] == x;
      LastIndexOfAt(p, '.', |stem|);
    }
    assert p != ".." by {
      if |p| == 2 {
        assert |stem| == 1 && x == [] && stem[0] == p[0];
        assert stem == [stem[0]];
      }
    }
    assert p[|stem|..] == "." + x;
  }

  /** Two whitespace-free words joined by one space come out joined by one `_`. */
  lemma SingleSpaceBecomesUnderscore(a: string, b: string)
    requires NoWhitespace(a) && NoWhitespace(b)
    ensures CollapseWhitespace(a + " " + b) == a + "_" + b
  {
    CollapseKeepsWhitespaceFree(a);
    CollapseKeepsWhitespaceFree(b);
    MaximalRunBecomesOneUnderscore(a, " ", b);
  }

  lemma UppercaseExampleSafeName()
    ensures CollapseWhitespace("My File.MP4") == "My_File.MP4"
  {
    var a, b := "My", "File.MP4";
    assert NoWhitespace(b) by {
      forall i | 0 <= i < |b| ensures !IsJsWhitespace(b[i]) {
        assert b[i] in "FileMP4.";
      }
    }
    SingleSpaceBecomesUnderscore(a, b);
    assert a + " " + b == "My File.MP4";
    assert a + "_" + b == "My_File.MP4";
  }

  lemma UppercaseExampleJoin(d: string)
    ensures d + "-" + "My_File.MP4" + "." + "mp4" == d + "-My_File.MP4.mp4"
  {
    var t := "-" + "My_File.MP4" + "." + "mp4";
    assert t == "-My_File.MP4.mp4";
    assert d + "-" + "My_File.MP4" + "." + "mp4" == d + t;
  }

  /**
   * `"My File.MP4"` keeps `.MP4` in its base: when `sanitize` leaves the name
   * alone, the stored name is `<ts>-My_File.MP4.mp4`, not `<ts>-My_File.mp4`.
   */
  lemma UppercaseExtensionExample(now: nat, sanitize: string -> string)
    requires sanitize("My File.MP4") == "My File.MP4"
    ensures UploadObjectName(now, Some("My File.MP4"), sanitize) == Decimal(now) + "-My_File.MP4.mp4"
  {
    var stem, x := "My File", "MP4";
    assert stem + "." + x == "My File.MP4";
    assert Lower(x) == "mp4" && Lower(x) != x;
    PlainNameUpload(now, sanitize, stem, x);
    assert SafeName(sanitize, "My File.MP4") == "My_File.MP4" by { UppercaseExampleSafeName(); }
    UppercaseExampleJoin(Decimal(now));
  }
}
