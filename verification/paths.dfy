/**
 Relative-path handling of the catalog: `safe_norm`, the parent directory
 `pathlib` reports for a relative path, the folder an item is filed under,
 and the containment test of `is_within_root` over canonical path strings.
 */
module Paths {
  import opened Text

  // ---------------------------------------------------------------------------
  // safe_norm
  // ---------------------------------------------------------------------------

  predicate NoDoubleSlash(s: string) {
    forall i :: 0 <= i < |s| - 1 ==> !(s[i] == '/' && s[i + 1] == '/')
  }

  /** The shape `safe_norm` produces: forward slashes only, no empty
      component in the middle, nothing absolute. */
  predicate IsNormalised(s: string) {
    '\\' !in s && NoDoubleSlash(s) && (s == [] || s[0] != '/')
  }

  predicate IsSeparator(c: char) {
    c == '/' || c == '\\'
  }

  /** The characters of `s` that are not path separators, in order. */
  function NameChars(s: string): string
    decreases |s|
  {
    if s == [] then [] else (if IsSeparator(s[0]) then [] else [s[0]]) + NameChars(s[1..])
  }

  /** For each name character of `s`, in order: whether a separator stands
      between it and the name character before it. Before the first name
      character the answer is `pending`. */
  function Breaks(s: string, pending: bool): (r: seq<bool>)
    ensures |r| == |NameChars(s)|
    decreases |s|
  {
    if s == [] then []
    else if IsSeparator(s[0]) then Breaks(s[1..], true)
    else [pending] + Breaks(s[1..], false)
  }

  predicate EndsInSeparator(s: string) {
    |s| > 0 && IsSeparator(s[|s| - 1])
  }

  /** `path.replace("\\", "/")`. */
  function SlashForBackslash(s: string): (r: string)
    ensures |r| == |s| && '\\' !in r
    ensures forall i :: 0 <= i < |s| ==> r[i] == (if s[i] == '\\' then '/' else s[i])
    ensures NameChars(r) == NameChars(s)
    decreases |s|
  {
    if s == [] then []
    else
      var r := [if s[0] == '\\' then '/' else s[0]] + SlashForBackslash(s[1..]);
      assert r[1..] == SlashForBackslash(s[1..]);
      r
  }

  /** Changing which separator is used leaves the breaks alone. */
  lemma {:induction false} SlashForBackslashBreaks(s: string, pending: bool)
    ensures Breaks(SlashForBackslash(s), pending) == Breaks(s, pending)
    decreases |s|
  {
    if s != [] {
      var r := SlashForBackslash(s);
      assert r[1..] == SlashForBackslash(s[1..]);
      SlashForBackslashBreaks(s[1..], true);
      SlashForBackslashBreaks(s[1..], false);
    }
  }

  /** `re.sub(r"/+", "/", path)`: each run of slashes becomes one slash. */
  function CollapseSlashes(s: string): (r: string)
    ensures NoDoubleSlash(r)
    ensures |s| > 0 ==> |r| > 0 && r[0] == s[0]
    ensures '\\' !in s ==> '\\' !in r
    ensures NameChars(r) == NameChars(s)
    ensures NoDoubleSlash(s) ==> r == s
    decreases |s|
  {
    if |s| <= 1 then s
    else if s[0] == '/' && s[1] == '/' then CollapseSlashes(s[1..])
    else
      var tail := CollapseSlashes(s[1..]);
      var r := [s[0]] + tail;
      assert r[1..] == tail;
      assert NoDoubleSlash(s) ==> NoDoubleSlash(s[1..]);
      r
  }

  /** Collapsing a slash run leaves the breaks alone. */
  lemma {:induction false} CollapseSlashesBreaks(s: string, pending: bool)
    ensures Breaks(CollapseSlashes(s), pending) == Breaks(s, pending)
    decreases |s|
  {
    if |s| > 1 {
      if s[0] == '/' && s[1] == '/' {
        var r := CollapseSlashes(s[1..]);
        CollapseSlashesBreaks(s[1..], true);
        assert r[0] == '/';
        assert Breaks(r, pending) == Breaks(r[1..], true) == Breaks(r, true);
      } else {
        var tail := CollapseSlashes(s[1..]);
        assert CollapseSlashes(s)[1..] == tail;
        CollapseSlashesBreaks(s[1..], true);
        CollapseSlashesBreaks(s[1..], false);
      }
    }
  }

  /** Collapsing keeps the last character. */
  lemma {:induction false} CollapseSlashesLast(s: string)
    requires |s| > 0
    ensures var r := CollapseSlashes(s); |r| > 0 && r[|r| - 1] == s[|s| - 1]
    decreases |s|
  {
    if |s| > 1 {
      CollapseSlashesLast(s[1..]);
      if !(s[0] == '/' && s[1] == '/') {
        var tail := CollapseSlashes(s[1..]);
        assert CollapseSlashes(s) == [s[0]] + tail;
      }
    }
  }

  /** `path.lstrip("/")`. */
  function StripLeadingSlashes(s: string): (r: string)
    ensures |r| <= |s| && r == s[|s| - |r|..]
    ensures r == [] || r[0] != '/'
    ensures NameChars(r) == NameChars(s)
    decreases |s|
  {
    if |s| > 0 && s[0] == '/' then StripLeadingSlashes(s[1..]) else s
  }

  /** Dropping leading slashes leaves the breaks alone when the first name
      character counts as broken off anyway. */
  lemma {:induction false} StripLeadingSlashesBreaks(s: string)
    ensures Breaks(StripLeadingSlashes(s), true) == Breaks(s, true)
    decreases |s|
  {
    if |s| > 0 && s[0] == '/' {
      StripLeadingSlashesBreaks(s[1..]);
    }
  }

  /** Text without name characters is all separators. */
  lemma {:induction false} OnlySeparators(s: string)
    requires NameChars(s) == []
    ensures forall i :: 0 <= i < |s| ==> IsSeparator(s[i])
    decreases |s|
  {
    if s != [] {
      OnlySeparators(s[1..]);
      assert forall i :: 1 <= i < |s| ==> s[i] == s[1..][i - 1];
    }
  }

  /** A suffix of a string without doubled slashes has none either. */
  lemma SuffixNoDoubleSlash(s: string, k: nat)
    requires k <= |s| && NoDoubleSlash(s)
    ensures NoDoubleSlash(s[k..])
  {
    var t := s[k..];
    forall i | 0 <= i < |t| - 1
      ensures !(t[i] == '/' && t[i + 1] == '/')
    {
      assert t[i] == s[k + i] && t[i + 1] == s[k + i + 1];
    }
  }

  /** `safe_norm`: backslashes become slashes, slash runs collapse, leading
      slashes go. The name characters stay in order; where the separators
      fall is stated by `SafeNormKeepsShape`. */
  function SafeNorm(path: string): (r: string)
    ensures IsNormalised(r)
    ensures NameChars(r) == NameChars(path)
  {
    var slashed := SlashForBackslash(path);
    var collapsed := CollapseSlashes(slashed);
    var r := StripLeadingSlashes(collapsed);
    SuffixNoDoubleSlash(collapsed, |collapsed| - |r|);
    assert '\\' !in r by {
      forall i | 0 <= i < |r| ensures r[i] != '\\' {
        assert r[i] == collapsed[|collapsed| - |r| + i];
      }
    }
    r
  }

  /** `safe_norm` keeps the shape of its input: the separators fall between
      the same name characters as before, and a trailing separator survives
      exactly when some name character precedes it. */
  lemma SafeNormKeepsShape(path: string)
    ensures Breaks(SafeNorm(path), true) == Breaks(path, true)
    ensures EndsInSeparator(SafeNorm(path)) <==> NameChars(path) != [] && EndsInSeparator(path)
  {
    var slashed := SlashForBackslash(path);
    var collapsed := CollapseSlashes(slashed);
    var r := SafeNorm(path);
    assert r == StripLeadingSlashes(collapsed);
    SafeNormShape(path, slashed, collapsed, r);
  }

  /** The breaks and the trailing separator through the three steps of
      `safe_norm`. */
  lemma SafeNormShape(path: string, slashed: string, collapsed: string, r: string)
    requires slashed == SlashForBackslash(path)
    requires collapsed == CollapseSlashes(slashed)
    requires r == StripLeadingSlashes(collapsed)
    requires '\\' !in r
    ensures Breaks(r, true) == Breaks(path, true)
    ensures EndsInSeparator(r) <==> NameChars(path) != [] && EndsInSeparator(path)
  {
    SlashForBackslashBreaks(path, true);
    CollapseSlashesBreaks(slashed, true);
    StripLeadingSlashesBreaks(collapsed);
    SafeNormTrailing(path, slashed, collapsed, r);
  }

  lemma SafeNormTrailing(path: string, slashed: string, collapsed: string, r: string)
    requires slashed == SlashForBackslash(path)
    requires collapsed == CollapseSlashes(slashed)
    requires r == StripLeadingSlashes(collapsed)
    requires '\\' !in r
    ensures EndsInSeparator(r) <==> NameChars(path) != [] && EndsInSeparator(path)
  {
    if NameChars(path) == [] {
      OnlySeparators(r);
    } else {
      assert slashed != [];
      CollapseSlashesLast(slashed);
      var k := |collapsed| - |r|;
      assert r != [];
      assert r[|r| - 1] == collapsed[k + |r| - 1] == collapsed[|collapsed| - 1];
      assert r[|r| - 1] in r;
    }
  }

  /** The name characters `chars` after the first, each preceded by a slash
      where `breaks` says so, then a slash if `trailing`. */
  function Glue(chars: string, breaks: seq<bool>, trailing: bool): string
    requires |chars| == |breaks|
    decreases |chars|
  {
    if chars == [] then (if trailing then "/" else "")
    else (if breaks[0] then "/" else "") + [chars[0]] + Glue(chars[1..], breaks[1..], trailing)
  }

  /** The normalised path with these name characters, breaks and trailing
      separator: one slash for each break, none in front, one at the end
      when asked, and the empty path when there are no name characters. */
  function Rebuild(chars: string, breaks: seq<bool>, trailing: bool): string
    requires |chars| == |breaks|
  {
    if chars == [] then "" else [chars[0]] + Glue(chars[1..], breaks[1..], trailing)
  }

  /** A slash-only string without doubled slashes is glued back from its
      name characters, breaks and trailing slash. */
  lemma {:induction false} GlueRebuilds(s: string)
    requires '\\' !in s && NoDoubleSlash(s)
    ensures Glue(NameChars(s), Breaks(s, false), EndsInSeparator(s)) == s
    decreases |s|
  {
    if s == [] {
    } else if s[0] != '/' {
      assert s[0] in s;
      var t := s[1..];
      SuffixNoDoubleSlash(s, 1);
      GlueRebuilds(t);
      GlueStep(s, 1, false);
    } else if |s| == 1 {
      assert NameChars(s) == [];
    } else {
      assert s[1] != '/' && s[1] in s;
      var t := s[2..];
      SuffixNoDoubleSlash(s, 2);
      GlueRebuilds(t);
      assert s[1..][1..] == t;
      GlueStep(s, 2, true);
    }
  }

  /** The name characters and breaks of a string that starts with an
      optional slash and then a name character. */
  lemma LeadingName(s: string, n: nat, slash: bool)
    requires n == 1 || n == 2
    requires |s| >= n && slash == (n == 2)
    requires slash ==> s[0] == '/'
    requires !IsSeparator(s[n - 1])
    ensures NameChars(s) == [s[n - 1]] + NameChars(s[n..])
    ensures Breaks(s, false) == [slash] + Breaks(s[n..], false)
  {
    var t := s[n - 1..];
    assert t[0] == s[n - 1] && t[1..] == s[n..];
    assert NameChars(t) == [s[n - 1]] + NameChars(s[n..]);
    assert Breaks(t, slash) == [slash] + Breaks(s[n..], false);
    if slash {
      assert IsSeparator(s[0]) && s[1..] == t;
    }
  }

  /** The same string as its optional slash, its name character and the rest. */
  lemma LeadingShape(s: string, n: nat, slash: bool)
    requires n == 1 || n == 2
    requires |s| >= n && slash == (n == 2)
    requires slash ==> s[0] == '/'
    requires !IsSeparator(s[n - 1])
    ensures EndsInSeparator(s) == EndsInSeparator(s[n..])
    ensures s == (if slash then "/" else "") + [s[n - 1]] + s[n..]
  {
    var t := s[n..];
    if slash {
      assert s == [s[0]] + [s[1]] + t;
    } else {
      assert s == [s[0]] + t;
    }
    if t != [] {
      assert s[|s| - 1] == t[|t| - 1];
    }
  }

  /** `Glue` of a non-empty list of name characters. */
  lemma GlueCons(chars: string, breaks: seq<bool>, trailing: bool)
    requires |chars| == |breaks| && chars != []
    ensures Glue(chars, breaks, trailing) ==
      (if breaks[0] then "/" else "") + [chars[0]] + Glue(chars[1..], breaks[1..], trailing)
  {
  }

  /** One step of `GlueRebuilds`: a name character at `n - 1`, after a slash
      exactly when `n == 2`. */
  lemma GlueStep(s: string, n: nat, slash: bool)
    requires n == 1 || n == 2
    requires |s| >= n && slash == (n == 2)
    requires slash ==> s[0] == '/'
    requires !IsSeparator(s[n - 1])
    requires var t := s[n..]; Glue(NameChars(t), Breaks(t, false), EndsInSeparator(t)) == t
    ensures Glue(NameChars(s), Breaks(s, false), EndsInSeparator(s)) == s
  {
    var t := s[n..];
    var chars, breaks := NameChars(s), Breaks(s, false);
    LeadingName(s, n, slash);
    LeadingShape(s, n, slash);
    assert chars[0] == s[n - 1] && chars[1..] == NameChars(t);
    assert breaks[0] == slash && breaks[1..] == Breaks(t, false);
    GlueCons(chars, breaks, EndsInSeparator(s));
  }

  /** A normalised path is rebuilt from its name characters, breaks and
      trailing slash. */
  lemma NormalisedRebuilt(x: string)
    requires IsNormalised(x)
    ensures x == Rebuild(NameChars(x), Breaks(x, true), EndsInSeparator(x))
  {
    if x != [] {
      var t := x[1..];
      assert x[0] in x;
      assert !IsSeparator(x[0]);
      SuffixNoDoubleSlash(x, 1);
      GlueRebuilds(t);
      var chars, breaks := NameChars(x), Breaks(x, true);
      assert chars == [x[0]] + NameChars(t);
      assert breaks == [true] + Breaks(t, false);
      assert chars[1..] == NameChars(t) && breaks[1..] == Breaks(t, false);
      assert EndsInSeparator(x) == EndsInSeparator(t) by {
        if t != [] {
          assert x[|x| - 1] == t[|t| - 1];
        }
      }
      assert Rebuild(chars, breaks, EndsInSeparator(x)) == [x[0]] + t;
      assert x == [x[0]] + t;
    }
  }

  /** `safe_norm` as a rebuild: the result is determined by the input's name
      characters, where separators stand between them, and whether it ends
      in a separator. So `"a\\b"` gives `"a/b"`, and `"//a//b/"` gives `"a/b/"`. */
  lemma SafeNormRebuilt(path: string)
    ensures SafeNorm(path) == Rebuild(NameChars(path), Breaks(path, true), EndsInSeparator(path))
  {
    SafeNormKeepsShape(path);
    NormalisedRebuilt(SafeNorm(path));
  }

  /** The normalised strings are exactly the fixed points of `safe_norm`. */
  lemma SafeNormFixedPoints(s: string)
    ensures SafeNorm(s) == s <==> IsNormalised(s)
  {
    if IsNormalised(s) {
      assert SlashForBackslash(s) == s by { SlashForBackslashNoop(s); }
    }
  }

  lemma {:induction false} SlashForBackslashNoop(s: string)
    requires '\\' !in s
    ensures SlashForBackslash(s) == s
    decreases |s|
  {
    if s != [] {
      SlashForBackslashNoop(s[1..]);
    }
  }

  /** Normalising twice is normalising once. */
  lemma SafeNormIdempotent(s: string)
    ensures SafeNorm(SafeNorm(s)) == SafeNorm(s)
  {
    SafeNormFixedPoints(SafeNorm(s));
  }

  // ---------------------------------------------------------------------------
  // pathlib parent and the item folder
  // ---------------------------------------------------------------------------

  /** Index of the first slash of `s`. */
  function FirstSlash(s: string): (i: nat)
    requires '/' in s
    ensures i < |s| && s[i] == '/' && '/' !in s[..i]
    decreases |s|
  {
    if s[0] == '/' then 0
    else
      assert '/' in s[1..] by {
        var k :| 0 <= k < |s| && s[k] == '/';
        assert s[1..][k - 1] == '/';
      }
      var i := 1 + FirstSlash(s[1..]);
      assert s[..i] == [s[0]] + s[1..][..i - 1];
      i
  }

  /** Components joined with single slashes: `"/".join(parts)`. */
  function Join(parts: seq<string>): string
    decreases |parts|
  {
    if |parts| == 0 then ""
    else if |parts| == 1 then parts[0]
    else parts[0] + "/" + Join(parts[1..])
  }

  /** `s.split("/")`: the slash-free pieces of `s`, in order; `SplitJoin`
      states that `Join` reassembles them into `s`. */
  function Split(s: string): (parts: seq<string>)
    ensures |parts| >= 1
    ensures forall i :: 0 <= i < |parts| ==> '/' !in parts[i]
    decreases |s|
  {
    if '/' !in s then [s]
    else
      var i := FirstSlash(s);
      var rest := Split(s[i + 1..]);
      var parts := [s[..i]] + rest;
      assert parts[1..] == rest;
      parts
  }

  /** Joining the pieces of `s` with slashes gives back `s`, and there is
      more than one piece exactly when `s` holds a slash. */
  lemma {:induction false} SplitJoin(s: string)
    ensures Join(Split(s)) == s
    ensures '/' in s <==> |Split(s)| >= 2
    decreases |s|
  {
    if '/' in s {
      var i := FirstSlash(s);
      var rest := Split(s[i + 1..]);
      SplitJoin(s[i + 1..]);
      assert Split(s) == [s[..i]] + rest;
      assert ([s[..i]] + rest)[1..] == rest;
      assert s == s[..i] + "/" + s[i + 1..];
    }
  }

  /** `Split` at a known first slash. */
  lemma SplitAt(s: string, i: nat)
    requires i < |s| && s[i] == '/' && '/' !in s[..i]
    ensures Split(s) == [s[..i]] + Split(s[i + 1..])
  {
    var j := FirstSlash(s);
    assert forall k :: 0 <= k < i ==> s[..i][k] == s[k];
    assert forall k :: 0 <= k < j ==> s[..j][k] == s[k];
  }

  /** A slash-free name and a slash in front of `rest` split into that
      name followed by the parts of `rest`. */
  lemma SplitCons(name: string, rest: string)
    requires '/' !in name
    ensures Split(name + "/" + rest) == [name] + Split(rest)
  {
    var s := name + "/" + rest;
    assert s[..|name|] == name && s[|name|] == '/' && s[|name| + 1..] == rest;
    SplitAt(s, |name|);
  }

  /** Splitting a join of slash-free pieces gives back the pieces. */
  lemma {:induction false} JoinSplit(parts: seq<string>)
    requires |parts| >= 1
    requires forall i :: 0 <= i < |parts| ==> '/' !in parts[i]
    ensures Split(Join(parts)) == parts
    decreases |parts|
  {
    if |parts| > 1 {
      JoinSplit(parts[1..]);
      SplitCons(parts[0], Join(parts[1..]));
      assert parts == [parts[0]] + parts[1..];
    }
  }

  lemma {:induction false} JoinSnoc(parts: seq<string>, last: string)
    requires |parts| >= 1
    ensures Join(parts + [last]) == Join(parts) + "/" + last
    decreases |parts|
  {
    if |parts| > 1 {
      assert (parts + [last])[1..] == parts[1..] + [last];
      JoinSnoc(parts[1..], last);
    }
  }

  predicate IsProperPart(p: string) {
    p != "" && p != "."
  }

  /** The components `pathlib` keeps for a relative path: empty and `.` pieces are dropped. */
  function ProperParts(parts: seq<string>): (r: seq<string>)
    ensures |r| <= |parts|
    ensures forall i :: 0 <= i < |r| ==> IsProperPart(r[i])
    ensures (forall i :: 0 <= i < |parts| ==> IsProperPart(parts[i])) ==> r == parts
    decreases |parts|
  {
    if parts == [] then []
    else
      var rest := ProperParts(parts[1..]);
      if IsProperPart(parts[0]) then [parts[0]] + rest else rest
  }

  /** The pieces `ProperParts` keeps are pieces of its input, so they hold
      no slash when the input's pieces hold none. */
  lemma {:induction false} ProperPartsSlashFree(parts: seq<string>)
    requires forall i :: 0 <= i < |parts| ==> '/' !in parts[i]
    ensures forall i :: 0 <= i < |ProperParts(parts)| ==> '/' !in ProperParts(parts)[i]
    decreases |parts|
  {
    if parts != [] {
      ProperPartsSlashFree(parts[1..]);
    }
  }

  /** A join whose first component is not empty starts with that component's
      first character. */
  lemma JoinHead(parts: seq<string>)
    requires |parts| >= 1 && parts[0] != ""
    ensures Join(parts) != "" && Join(parts)[0] == parts[0][0]
  {
  }

  /** `str(Path(rel).parent)` for a relative path on a POSIX system. */
  function ParentText(rel: string): string {
    var parts := ProperParts(Split(rel));
    if |parts| <= 1 then "." else Join(parts[..|parts| - 1])
  }

  /** The folder `build_index` files an item under: the normalised parent,
      with the current-directory marker standing for the root as `""`. */
  function FolderOf(rel: string): (folder: string)
    ensures IsNormalised(folder)
    ensures folder != "."
  {
    var parent := SafeNorm(ParentText(rel));
    if parent == "." then "" else parent
  }

  /** A file directly under the root is filed under the root folder `""`. */
  lemma FolderOfTopLevel(rel: string)
    requires '/' !in rel
    ensures FolderOf(rel) == ""
  {
    var parts := Split(rel);
    assert |parts| == 1;
    assert |ProperParts(parts)| <= 1;
    assert ParentText(rel) == ".";
    assert IsNormalised(".");
    SafeNormFixedPoints(".");
  }

  /** Every component of `rel` is a real name (so `pathlib` drops nothing). */
  predicate HasProperParts(rel: string) {
    var parts := Split(rel);
    forall i :: 0 <= i < |parts| ==> IsProperPart(parts[i])
  }

  /** A prefix of a normalised string is normalised. */
  lemma PrefixNormalised(s: string, k: nat)
    requires k <= |s| && IsNormalised(s)
    ensures IsNormalised(s[..k])
  {
    assert forall i :: 0 <= i < k ==> s[..k][i] == s[i];
  }

  /** Real names joined with slashes make a real name: neither empty nor `.`. */
  lemma JoinProper(parts: seq<string>)
    requires |parts| >= 1
    requires forall i :: 0 <= i < |parts| ==> IsProperPart(parts[i])
    ensures IsProperPart(Join(parts))
  {
    if |parts| > 1 {
      assert IsProperPart(parts[0]);
      assert |Join(parts)| >= |parts[0]| + 1;
    }
  }

  /** The last component of a path: `PurePosixPath(rel).name` for a path of real names. */
  function BaseName(rel: string): (name: string)
    ensures '/' !in name
  {
    var parts := Split(rel);
    parts[|parts| - 1]
  }

  /** A path of real names with a slash is its parent, a slash and its last name. */
  lemma ParentAndName(rel: string)
    requires HasProperParts(rel) && '/' in rel
    ensures IsProperPart(ParentText(rel))
    ensures rel == ParentText(rel) + "/" + BaseName(rel)
  {
    var parts := Split(rel);
    SplitJoin(rel);
    var n := |parts|;
    var front := parts[..n - 1];
    DropLast(parts);
    JoinSnoc(front, parts[n - 1]);
    JoinProper(front);
    assert ProperParts(parts) == parts;
  }

  lemma DropLast(parts: seq<string>)
    requires |parts| >= 1
    ensures parts == parts[..|parts| - 1] + [parts[|parts| - 1]]
    ensures forall i :: 0 <= i < |parts| - 1 ==> parts[..|parts| - 1][i] == parts[i]
  {
  }

  /** The folder of a path whose parent is already a normalised real name is that parent. */
  lemma FolderOfNormalParent(rel: string)
    requires IsNormalised(ParentText(rel)) && IsProperPart(ParentText(rel))
    ensures FolderOf(rel) == ParentText(rel)
  {
    SafeNormFixedPoints(ParentText(rel));
  }

  /** `p + "/" + name` cut back at its last slash. */
  lemma SlashPieces(rel: string, p: string, name: string)
    requires rel == p + "/" + name && '/' !in name
    ensures rel[..|p|] == p
    ensures HasPrefix(rel, p + "/")
    ensures '/' !in rel[|p| + 1..]
  {
    assert rel[..|p|] == p;
    assert rel[..|p| + 1] == p + "/";
    assert rel[|p| + 1..] == name;
  }

  /** For a file inside a sub-directory, its folder is exactly the directory
      part of its relative path: `rel` is `folder + "/" + name` with a
      slash-free `name`. */
  lemma FolderIsDirectoryPart(rel: string)
    requires IsNormalised(rel) && HasProperParts(rel)
    requires '/' in rel
    ensures HasPrefix(rel, FolderOf(rel) + "/")
    ensures '/' !in rel[|FolderOf(rel)| + 1..]
    ensures FolderOf(rel) != ""
  {
    var p := ParentText(rel);
    ParentAndName(rel);
    SlashPieces(rel, p, BaseName(rel));
    PrefixNormalised(rel, |p|);
    FolderOfNormalParent(rel);
  }

  // ---------------------------------------------------------------------------
  // is_within_root over canonical path strings
  // ---------------------------------------------------------------------------

  /** The test of `is_within_root` as written: the target starts with the root
      followed by a separator, or is the root itself. */
  predicate IsWithinRootAsWritten(root: string, target: string) {
    HasPrefix(target, root + "/") || target == root
  }

  /** The filesystem root `/` is the one canonical root that ends in a slash;
      the written test then demands a `//` prefix and rejects every file. */
  lemma RootDirectoryRejectedAsWritten()
    ensures !IsWithinRootAsWritten("/", "/movie.mp4")
  {
    assert ("/movie.mp4")[1] == 'm';
    assert ("/movie.mp4")[..2] != "//";
  }

  /** `root` followed by exactly one separator. */
  function DirPrefix(root: string): (r: string)
    ensures |r| >= 1 && HasPrefix(r, root) && r[|r| - 1] == '/'
    ensures |r| <= |root| + 1
  {
    if |root| > 0 && root[|root| - 1] == '/' then root else root + "/"
  }

  /** The containment test with the separator added only when the root lacks one. */
  predicate IsWithinRoot(root: string, target: string) {
    target == root || HasPrefix(target, DirPrefix(root))
  }

  /** Every path below the root, including below `/`, is accepted. */
  lemma ChildWithinRoot(root: string, rest: string)
    ensures IsWithinRoot(root, DirPrefix(root) + rest)
  {
    assert (DirPrefix(root) + rest)[..|DirPrefix(root)|] == DirPrefix(root);
  }

  /** For every root not ending in a separator, the corrected test agrees with the written one. */
  lemma WithinRootAgreesAsWritten(root: string, target: string)
    requires root == [] || root[|root| - 1] != '/'
    ensures IsWithinRoot(root, target) <==> IsWithinRootAsWritten(root, target)
  {
  }

  /** A sibling sharing the root's text as a prefix (`/videos2` for root
      `/videos`) is not inside the root. */
  lemma SiblingOutsideRoot(root: string, c: char, rest: string)
    requires c != '/'
    requires root != [] && root[|root| - 1] != '/'
    ensures !IsWithinRoot(root, root + [c] + rest)
  {
    assert (root + [c] + rest)[|root|] == c;
  }

  /** Anything accepted is the root itself or strictly longer and prefixed by it. */
  lemma WithinRootIsBelow(root: string, target: string)
    requires IsWithinRoot(root, target)
    ensures target == root || (HasPrefix(target, root) && |target| > |root|)
  {
    if target != root {
      var d := DirPrefix(root);
      assert target[..|root|] == d[..|root|];
    }
  }
}
