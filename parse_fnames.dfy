/**
 * `parse_fnames` of `src/parse_fnames.rs`: which entries of the keyword
 * index become pages to parse, and the path each one becomes. Paths are
 * strings with `/` as the separator.
 */
module ParseFnames {
  import opened Wrappers
  import opened Strings

  /** The part of the manual the scraper reads. */
  const ReferenceRoot: string := "GameMaker_Language/GML_Reference"

  /** The extension every page path is given. */
  const PageExtension: string := "htm"

  /** `contains(char::is_uppercase)`, for ASCII letters. */
  predicate HasUpper(s: string)
  {
    exists i :: 0 <= i < |s| && IsAsciiUpper(s[i])
  }

  /** The position of the last `c` in `s`. */
  function LastIndex(s: string, c: char): (r: Option<nat>)
    ensures r.None? <==> c !in s
    ensures r.Some? ==> r.value < |s| && s[r.value] == c && c !in s[r.value + 1..]
  {
    if s == [] then None
    else if s[|s| - 1] == c then Some(|s| - 1)
    else
      var r := LastIndex(s[..|s| - 1], c);
      assert r.Some? ==> s[r.value + 1..] == s[..|s| - 1][r.value + 1..] + [s[|s| - 1]];
      assert r.None? ==> s == s[..|s| - 1] + [s[|s| - 1]];
      r
  }

  /** Where the last component of `p` starts: just after the last `/`. */
  function NameStart(p: string): (r: nat)
    ensures r <= |p| && '/' !in p[r..]
    ensures r > 0 ==> p[r - 1] == '/'
  {
    match LastIndex(p, '/')
    case None => 0
    case Some(i) => i + 1
  }

  /** `Path::file_name`: the last component, `None` when it is empty or `..`. */
  function FileName(p: string): (r: Option<string>)
    ensures r.Some? ==> r.value == p[NameStart(p)..] && r.value != [] && '/' !in r.value
  {
    var name := p[NameStart(p)..];
    if name == [] || name == ".." then None else Some(name)
  }

  /** The filter of `parse_fnames`: the keyword and the file name have no
      uppercase letter, and the path lies under the reference root. */
  predicate Keep(keyword: string, fpath: string)
  {
    !HasUpper(keyword) &&
    !(FileName(fpath).Some? && HasUpper(FileName(fpath).value)) &&
    Contains(fpath, ReferenceRoot)
  }

  /** `Path::join`: an absolute path replaces `dir`; otherwise the two are
      joined with one separator. */
  function Join(dir: string, p: string): (r: string)
    ensures StartsWith(p, "/") ==> r == p
    ensures !StartsWith(p, "/") ==> EndsWith(r, p) && StartsWith(r, dir)
  {
    if StartsWith(p, "/") then p
    else if dir == [] || EndsWith(dir, "/") then
      assert (dir + p)[..|dir|] == dir && (dir + p)[|dir|..] == p;
      dir + p
    else
      assert (dir + "/" + p)[..|dir|] == dir && (dir + "/" + p)[|dir| + 1..] == p;
      dir + "/" + p
  }

  /** Where the extension of `p` starts, as `file_stem` splits the file
      name: the last `.` of the file name, unless that `.` opens the name. */
  function StemEnd(p: string): (r: nat)
    requires FileName(p).Some?
    ensures NameStart(p) < r <= |p|
    ensures r < |p| ==> p[r] == '.' && '.' !in p[r + 1..]
    ensures r == |p| ==> '.' !in p[NameStart(p) + 1..]
  {
    var start := NameStart(p);
    var name := p[start..];
    match LastIndex(name, '.')
    case None => |p|
    case Some(i) =>
      if i == 0 then
        assert p[start + 1..] == name[1..];
        |p|
      else
        assert p[start + i + 1..] == name[i + 1..];
        start + i
  }

  /** `PathBuf::set_extension`: without a file name the path is unchanged;
      otherwise the extension, if any, is replaced by `ext`. */
  function SetExtension(p: string, ext: string): (r: string)
    requires ext != [] && '/' !in ext && '.' !in ext
    ensures FileName(p).None? ==> r == p
    ensures FileName(p).Some? ==> r == p[..StemEnd(p)] + "." + ext
  {
    if FileName(p).None? then p else p[..StemEnd(p)] + "." + ext
  }

  /** The page path a kept entry becomes. */
  function PagePath(dir: string, fpath: string): string
  {
    SetExtension(Join(dir, fpath), PageExtension)
  }

  /** `parse_fnames`, on the decoded keyword index: the set of page paths of
      the kept entries. */
  function ParseFnames(dir: string, index: map<string, string>): (r: set<string>)
    // every page comes from an entry whose keyword and file name have no
    // uppercase letter and whose path lies under the reference root
    ensures forall p :: p in r ==>
              exists k :: k in index && !HasUpper(k) &&
                          !(FileName(index[k]).Some? && HasUpper(FileName(index[k]).value)) &&
                          Contains(index[k], ReferenceRoot) && p == PagePath(dir, index[k])
    // and every such entry gives its page
    ensures forall k ::
              (k in index && !HasUpper(k) &&
               !(FileName(index[k]).Some? && HasUpper(FileName(index[k]).value)) &&
               Contains(index[k], ReferenceRoot)) ==> PagePath(dir, index[k]) in r
    // a page with a file name carries the `.htm` extension
    ensures forall p :: p in r && FileName(p).Some? ==> EndsWith(p, ".htm")
  {
    var r := set k | k in index && Keep(k, index[k]) :: PagePath(dir, index[k]);
    forall p | p in r && FileName(p).Some? ensures EndsWith(p, ".htm") {
      var k :| k in index && Keep(k, index[k]) && p == PagePath(dir, index[k]);
      if FileName(Join(dir, index[k])).Some? {
        PagePathExtension(dir, index[k]);
      }
    }
    r
  }

  /** A path with a file name ends in `.htm` once its extension is set. */
  lemma PagePathExtension(dir: string, fpath: string)
    requires FileName(Join(dir, fpath)).Some?
    ensures EndsWith(PagePath(dir, fpath), ".htm")
  {
    var p := Join(dir, fpath);
    var stem := p[..StemEnd(p)];
    assert PagePath(dir, fpath) == stem + ".htm";
    EndsWithAppend(stem, ".htm");
  }

  lemma EndsWithAppend(a: string, b: string)
    ensures EndsWith(a + b, b)
  {
    assert (a + b)[|a|..] == b;
  }

  /** Setting the extension twice is setting it once. */
  lemma SetExtensionIdempotent(p: string, ext: string)
    requires ext != [] && '/' !in ext && '.' !in ext
    ensures SetExtension(SetExtension(p, ext), ext) == SetExtension(p, ext)
  {
    if FileName(p).Some? {
      var cut := StemEnd(p);
      var r := SetExtension(p, ext);
      ExtendedName(p, ext);
      assert r == p[..cut] + "." + ext;
      assert r[cut] == '.' && r[cut + 1..] == ext;
      StemEndAt(r, cut);
      assert r[..cut] == p[..cut];
    }
  }

  /** The last dot of the file name, when it does not open the name, is
      where the stem ends. */
  lemma StemEndAt(p: string, i: nat)
    requires FileName(p).Some? && NameStart(p) < i < |p| && p[i] == '.' && '.' !in p[i + 1..]
    ensures StemEnd(p) == i
  {
    var start := NameStart(p);
    var name := p[start..];
    assert name[i - start] == '.' && name[i - start + 1..] == p[i + 1..];
    LastDotAt(name, i - start);
  }

  /** After the extension is set, the file name starts where it did and is
      the stem, a dot and the extension. */
  lemma ExtendedName(p: string, ext: string)
    requires ext != [] && '/' !in ext && '.' !in ext && FileName(p).Some?
    ensures var r := SetExtension(p, ext);
            NameStart(r) == NameStart(p) && FileName(r) == Some(r[NameStart(p)..]) &&
            r[NameStart(p)..] == p[NameStart(p)..StemEnd(p)] + "." + ext
  {
    var start := NameStart(p);
    var cut := StemEnd(p);
    var r := p[..cut] + "." + ext;
    SlashFreeName(p, ext);
    LastSlashKept(p, r, start);
    var name := r[start..];
    assert name[|name| - 1] == ext[|ext| - 1] && ext[|ext| - 1] != '.';
    assert name != "..";
  }

  /** The new file name has no separator in it. */
  lemma SlashFreeName(p: string, ext: string)
    requires ext != [] && '/' !in ext && '.' !in ext && FileName(p).Some?
    ensures var r := p[..StemEnd(p)] + "." + ext;
            NameStart(p) <= |r| && r[..NameStart(p)] == p[..NameStart(p)] &&
            r[NameStart(p)..] == p[NameStart(p)..StemEnd(p)] + "." + ext &&
            '/' !in r[NameStart(p)..]
  {
    var start := NameStart(p);
    var cut := StemEnd(p);
    var r := p[..cut] + "." + ext;
    assert r[..start] == p[..start];
    assert r[start..] == p[start..cut] + "." + ext;
    assert '/' !in p[start..];
    assert p[start..cut] == p[start..][..cut - start];
  }

  /** The last `/` of a path is kept when only text after it changes. */
  lemma LastSlashKept(p: string, r: string, start: nat)
    requires start == NameStart(p) && start <= |r| && r[..start] == p[..start] && '/' !in r[start..]
    ensures NameStart(r) == start
  {
    if start == 0 {
      assert r == r[start..];
    } else {
      assert r[start - 1] == '/';
      LastIndexAt(r, '/', start - 1);
    }
  }

  /** The last occurrence is the one with none after it. */
  lemma {:induction false} LastIndexAt(s: string, c: char, i: nat)
    requires i < |s| && s[i] == c && c !in s[i + 1..]
    ensures LastIndex(s, c) == Some(i)
  {
    if i < |s| - 1 {
      assert s[|s| - 1] == s[i + 1..][|s| - 2 - i];
      assert s[..|s| - 1][i + 1..] == s[i + 1..|s| - 1];
      assert s[i + 1..|s| - 1] == s[i + 1..][..|s| - 2 - i];
      LastIndexAt(s[..|s| - 1], c, i);
    }
  }

  /** The dot at `i` is the last of `name`. */
  lemma LastDotAt(name: string, i: nat)
    requires i < |name| && name[i] == '.' && '.' !in name[i + 1..]
    ensures LastIndex(name, '.') == Some(i)
  {
    LastIndexAt(name, '.', i);
  }

  /** An entry the filter drops contributes nothing: the result is what the
      index without that entry gives. */
  lemma DroppedEntry(dir: string, index: map<string, string>, k: string)
    requires k in index && !Keep(k, index[k])
    ensures ParseFnames(dir, index) == ParseFnames(dir, index - {k})
  {
    var a, b := ParseFnames(dir, index), ParseFnames(dir, index - {k});
    forall p | p in a ensures p in b {
      var k' :| k' in index && Keep(k', index[k']) && p == PagePath(dir, index[k']);
      assert k' in index - {k};
    }
    forall p | p in b ensures p in a {
      var k' :| k' in index - {k} && Keep(k', (index - {k})[k']) && p == PagePath(dir, (index - {k})[k']);
      assert index[k'] == (index - {k})[k'];
    }
  }

  /** An entry whose keyword has an uppercase letter is dropped. */
  lemma UppercaseKeywordDropped(dir: string, index: map<string, string>, k: string)
    requires k in index && HasUpper(k)
    ensures ParseFnames(dir, index) == ParseFnames(dir, index - {k})
  {
    DroppedEntry(dir, index, k);
  }

  /** An entry whose file name has an uppercase letter is dropped, whatever
      its keyword. */
  lemma UppercaseFileNameDropped(dir: string, index: map<string, string>, k: string)
    requires k in index && FileName(index[k]).Some? && HasUpper(FileName(index[k]).value)
    ensures ParseFnames(dir, index) == ParseFnames(dir, index - {k})
  {
    DroppedEntry(dir, index, k);
  }

  /** An entry whose path does not contain the reference root is dropped. */
  lemma MissingRootDropped(dir: string, index: map<string, string>, k: string)
    requires k in index && !Contains(index[k], ReferenceRoot)
    ensures ParseFnames(dir, index) == ParseFnames(dir, index - {k})
  {
    DroppedEntry(dir, index, k);
  }

  /** The result has at most one path per entry of the index. */
  lemma ParseFnamesBound(dir: string, index: map<string, string>)
    ensures |ParseFnames(dir, index)| <= |index|
  {
    KeptImageBound(dir, index, index.Keys);
    assert ParseFnames(dir, index) == KeptImage(dir, index, index.Keys);
  }

  /** The page paths of the kept entries among `keys`. */
  function KeptImage(dir: string, index: map<string, string>, keys: set<string>): set<string>
  {
    set k | k in keys && k in index && Keep(k, index[k]) :: PagePath(dir, index[k])
  }

  lemma {:induction false} KeptImageBound(dir: string, index: map<string, string>, keys: set<string>)
    ensures |KeptImage(dir, index, keys)| <= |keys|
    decreases |keys|
  {
    if keys != {} {
      var x :| x in keys;
      var rest := keys - {x};
      KeptImageBound(dir, index, rest);
      var a := KeptImage(dir, index, keys);
      var b := KeptImage(dir, index, rest);
      if x in index && Keep(x, index[x]) {
        assert a <= b + {PagePath(dir, index[x])};
        SubsetCard(a, b + {PagePath(dir, index[x])});
      } else {
        assert a <= b;
        SubsetCard(a, b);
      }
    }
  }

  lemma {:induction false} SubsetCard(a: set<string>, b: set<string>)
    requires a <= b
    ensures |a| <= |b|
    decreases |b|
  {
    if a != {} {
      var x :| x in a;
      SubsetCard(a - {x}, b - {x});
    }
  }
}
