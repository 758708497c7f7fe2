/**
 * The multer file filter shared by the submission and offer-letter routes: the MIME type
 * and the lower-cased extension of the original file name must both match the unanchored
 * regex `/pdf|jpeg|jpg|png/`, i.e. contain one of those words somewhere.
 */
module Upload {
  import opened Text

  /** The alternatives of `/pdf|jpeg|jpg|png/`. */
  const AllowedTypes: seq<string> := ["pdf", "jpeg", "jpg", "png"]

  /** `t` ends with `ext`. */
  predicate EndsWith(t: string, ext: string)
  {
    |ext| <= |t| && t[|t| - |ext|..] == ext
  }

  /** `p` with its trailing `/` characters removed. */
  function TrimTrailingSlashes(p: string): (r: string)
    ensures |r| <= |p| && r == p[..|r|]
    ensures r == [] || r[|r| - 1] != '/'
  {
    if p != [] && p[|p| - 1] == '/' then TrimTrailingSlashes(p[..|p| - 1]) else p
  }

  /** The part of `t` after its last `/`. */
  function LastSegment(t: string): (part: string)
    ensures |part| <= |t| && part == t[|t| - |part|..]
    ensures Lacks(part, '/')
  {
    t[LastIndex(t, '/') + 1..]
  }

  /** A segment has an extension: it is not ".." and has a dot after its first character. */
  predicate HasExtensionDot(part: string)
  {
    part != ".." && exists j :: 0 < j < |part| && part[j] == '.'
  }

  /** The extension of one path segment: from its last `.`, unless that dot leads the segment or the segment is "..". */
  function SegmentExtension(part: string): (ext: string)
    ensures |ext| <= |part| && ext == part[|part| - |ext|..]
    ensures ext == "" || (ext[0] == '.' && Lacks(ext[1..], '.'))
    ensures ext != "" <==> HasExtensionDot(part)
  {
    var dot := LastIndex(part, '.');
    if dot <= 0 || part == ".." then "" else part[dot..]
  }

  /**
   * `path.extname` (POSIX): in the last segment of the path, ignoring trailing slashes,
   * the part from the last `.` on; empty when there is no dot, when the dot is the first
   * character of the segment, and for the segment "..".
   */
  function ExtName(p: string): (ext: string)
    ensures ext == "" || (ext[0] == '.' && Lacks(ext[1..], '.'))
    ensures Lacks(ext, '/')
    ensures EndsWith(TrimTrailingSlashes(p), ext)
    ensures ext != "" <==> HasExtensionDot(LastSegment(TrimTrailingSlashes(p)))
  {
    var t := TrimTrailingSlashes(p);
    ExtensionIsSuffix(t);
    ExtensionLacks(LastSegment(t), '/');
    SegmentExtension(LastSegment(t))
  }

  /** The extension of the last segment of `t` is a suffix of `t`. */
  lemma ExtensionIsSuffix(t: string)
    ensures EndsWith(t, SegmentExtension(LastSegment(t)))
  {
    var part := LastSegment(t);
    var ext := SegmentExtension(part);
    assert ext == part[|part| - |ext|..] == t[|t| - |part|..][|part| - |ext|..];
  }

  /** A segment without `c` has an extension without `c`. */
  lemma ExtensionLacks(part: string, c: char)
    requires Lacks(part, c)
    ensures Lacks(SegmentExtension(part), c)
  {
    var ext := SegmentExtension(part);
    forall j | 0 <= j < |ext| ensures ext[j] != c {
      assert ext[j] == part[|part| - |ext| + j];
    }
  }

  /** The file filter: accepted iff both tests of the regex succeed. */
  function FileAccepted(mimeType: string, originalName: string): (ok: bool)
    ensures ok <==> (ContainsAny(mimeType, AllowedTypes)
                     && ContainsAny(ToLower(ExtName(originalName)), AllowedTypes))
  {
    Test(mimeType, AllowedTypes) && Test(ToLower(ExtName(originalName)), AllowedTypes)
  }

  /** A name without `/` is its own last segment, so its extension is that of the segment. */
  lemma PlainNameExtension(name: string)
    requires Lacks(name, '/')
    ensures ExtName(name) == SegmentExtension(name)
  {
    assert TrimTrailingSlashes(name) == name;
    assert LastIndex(name, '/') == -1;
    assert LastSegment(name) == name;
  }

  /** `base + "." + ext` has no `/` when neither part has one. */
  lemma DottedNameLacks(base: string, ext: string, c: char)
    requires Lacks(base, c) && Lacks(ext, c) && c != '.'
    ensures Lacks(base + "." + ext, c)
  {
    var name := base + "." + ext;
    forall j | 0 <= j < |name| ensures name[j] != c {
      if j < |base| {
        assert name[j] == base[j];
      } else if j > |base| {
        assert name[j] == ext[j - |base| - 1];
      }
    }
  }

  /** In `base.ext` with a dot-free `ext`, the dot after `base` is the only one from there on. */
  lemma DotAfterBase(base: string, ext: string)
    requires Lacks(ext, '.')
    ensures var name := base + "." + ext; |base| < |name| && name[|base|] == '.'
    ensures forall j :: |base| < j < |base + "." + ext| ==> (base + "." + ext)[j] != '.'
  {
    var dotted := base + ".";
    var name := dotted + ext;
    forall j | |dotted| <= j < |name| ensures name[j] != '.' {
      assert name[j] == ext[j - |dotted|];
    }
  }

  /** In `base.ext` with a dot-free `ext`, the last dot is the one after `base`. */
  lemma DotIsLast(base: string, ext: string)
    requires Lacks(ext, '.')
    ensures LastIndex(base + "." + ext, '.') == |base|
  {
    DotAfterBase(base, ext);
    LastIndexAt(base + "." + ext, '.', |base|);
  }

  /** `base.ext` is ".." only for `base == "."` and an empty `ext`; its tail from the dot is `.ext`. */
  lemma DottedNameParts(base: string, ext: string)
    requires base != "" && !(base == "." && ext == "")
    ensures base + "." + ext != ".."
    ensures (base + "." + ext)[|base|..] == "." + ext
  {
    var name := base + "." + ext;
    if |name| == 2 {
      assert |base| == 1 && |ext| == 0 && base[0] == name[0];
      assert base != ".";
    }
  }

  /** A plain file name `base.ext` has extension `.ext`, unless it is a dot-file or "..". */
  lemma ExtNameOfDottedName(base: string, ext: string)
    requires Lacks(base, '/') && Lacks(ext, '/') && Lacks(ext, '.')
    requires base != "" && !(base == "." && ext == "")
    ensures ExtName(base + "." + ext) == "." + ext
  {
    DotIsLast(base, ext);
    DottedNameParts(base, ext);
    DottedNameLacks(base, ext, '/');
    PlainNameExtension(base + "." + ext);
  }

  /** A name without any dot has no extension. */
  lemma NoDotNoExtension(name: string)
    requires Lacks(name, '.')
    ensures ExtName(name) == ""
  {
    var t := TrimTrailingSlashes(name);
    var part := LastSegment(t);
    assert forall j :: 0 <= j < |part| ==> part[j] == t[|t| - |part| + j] == name[|t| - |part| + j];
    assert !HasExtensionDot(part);
  }

  /** A file whose name has no extension never passes the filter, whatever its MIME type. */
  lemma NoExtensionRefused(mimeType: string, name: string)
    requires ExtName(name) == ""
    ensures !FileAccepted(mimeType, name)
  {
    EmptyHasNoType();
  }

  /** No allowed word occurs in the empty extension. */
  lemma EmptyHasNoType()
    ensures !ContainsAny(ToLower(""), AllowedTypes)
  {
    var lowered := ToLower("");
    forall i: nat, k: nat | k < |AllowedTypes| ensures !OccursAt(lowered, AllowedTypes[k], i) {
      assert |AllowedTypes[k]| > 0;
    }
  }

  /** A dot-file such as ".pdf" has no extension, so it is refused whatever its MIME type. */
  lemma DotFileRefused(mimeType: string, ext: string)
    requires Lacks(ext, '/') && Lacks(ext, '.')
    ensures ExtName("." + ext) == ""
    ensures !FileAccepted(mimeType, "." + ext)
  {
    var name := "." + ext;
    DottedNameLacks("", ext, '/');
    assert "" + "." + ext == name;
    PlainNameExtension(name);
    NoExtensionRefused(mimeType, name);
  }

  /**
   * Because the regex is not anchored, any extension that merely contains an allowed
   * word passes (".xpngx" as well as ".png"), in either letter case.
   */
  lemma AcceptsExtensionContainingType(mimeType: string, base: string, ext: string, k: nat, i: nat)
    requires ContainsAny(mimeType, AllowedTypes)
    requires Lacks(base, '/') && Lacks(ext, '/') && Lacks(ext, '.') && base != ""
    requires k < |AllowedTypes| && OccursAt(ToLower(ext), AllowedTypes[k], i)
    ensures FileAccepted(mimeType, base + "." + ext)
  {
    var word := AllowedTypes[k];
    assert |ext| >= |word| > 0;
    ExtNameOfDottedName(base, ext);
    ToLowerCons('.', ext);
    OccursInTail(ToLower("." + ext), word, i);
  }

  /** No allowed word occurs in ".txt". */
  lemma TextExtensionHasNoType()
    ensures !ContainsAny(ToLower("." + "txt"), AllowedTypes)
  {
    var lowered := ToLower("." + "txt");
    assert lowered[0] == '.' && lowered[1] == 't' && lowered[2] == 'x' && lowered[3] == 't';
    forall i: nat, k: nat | k < |AllowedTypes| ensures !OccursAt(lowered, AllowedTypes[k], i) {
      if i + |AllowedTypes[k]| <= |lowered| {
        assert lowered[i..i + |AllowedTypes[k]|][0] == lowered[i];
      }
    }
  }

  /** A ".txt" file is refused whatever its MIME type claims. */
  lemma RejectsTextFile(mimeType: string, base: string)
    requires Lacks(base, '/') && base != ""
    ensures !FileAccepted(mimeType, base + "." + "txt")
  {
    ExtNameOfDottedName(base, "txt");
    TextExtensionHasNoType();
  }
}
