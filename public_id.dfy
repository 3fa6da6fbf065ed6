/** The string core of the storage service: how a stored image URL is turned
    back into the storage's public id before a delete (`ExtractPublicId`),
    together with the .NET string primitives it is built from. */
module PublicId {

  /** The result of `ExtractPublicId`: the id, or the `ArgumentException` that
      `string.Replace` raises when asked to replace the empty string. */
  datatype Extracted = Returned(id: string) | ArgumentError

  /** `s.StartsWith(prefix)`, compared character by character. */
  predicate StartsWith(s: string, prefix: string)
  {
    |prefix| <= |s| && s[..|prefix|] == prefix
  }

  /** The position of the first `c` in `s`. */
  function IndexOf(s: string, c: char): (i: nat)
    requires c in s
    ensures i < |s| && s[i] == c && c !in s[..i]
  {
    if s[0] == c then 0 else 1 + IndexOf(s[1..], c)
  }

  /** `s.LastIndexOf(c)`: the position of the last `c` in `s`, or -1. */
  function LastIndexOf(s: string, c: char): (i: int)
    ensures -1 <= i < |s|
    ensures i == -1 <==> c !in s
    ensures 0 <= i ==> s[i] == c && c !in s[i + 1..]
  {
    if s == [] then -1
    else if s[|s| - 1] == c then |s| - 1
    else
      var i := LastIndexOf(s[..|s| - 1], c);
      assert s == s[..|s| - 1] + [s[|s| - 1]];
      i
  }

  /** `s.Split(sep)`: the pieces between separators, empty pieces included,
      so that there is always at least one. */
  function Split(s: string, sep: char): (parts: seq<string>)
    ensures |parts| >= 1
    ensures forall i :: 0 <= i < |parts| ==> sep !in parts[i]
    decreases |s|
  {
    if sep !in s then [s]
    else
      var i := IndexOf(s, sep);
      [s[..i]] + Split(s[i + 1..], sep)
  }

  /** `string.Join(sep, parts)`. */
  function Join(parts: seq<string>, sep: char): string
    requires |parts| >= 1
  {
    if |parts| == 1 then parts[0] else parts[0] + [sep] + Join(parts[1..], sep)
  }

  /** Joining a piece in front of others puts the separator after it. */
  lemma JoinCons(head: string, parts: seq<string>, sep: char)
    requires |parts| >= 1
    ensures Join([head] + parts, sep) == head + [sep] + Join(parts, sep)
  {
  }

  /** Joining the pieces of a split gives back the string. */
  lemma {:induction false} JoinSplit(s: string, sep: char)
    ensures Join(Split(s, sep), sep) == s
    decreases |s|
  {
    if sep in s {
      var i := IndexOf(s, sep);
      var head, rest := s[..i], s[i + 1..];
      JoinSplit(rest, sep);
      assert Split(s, sep) == [head] + Split(rest, sep);
      JoinCons(head, Split(rest, sep), sep);
      assert s == head + [sep] + rest;
    }
  }

  /** The first separator of `s` is at `i`. */
  lemma {:induction false} IndexOfIs(s: string, c: char, i: nat)
    requires i < |s| && s[i] == c && c !in s[..i]
    ensures IndexOf(s, c) == i
  {
    if i > 0 {
      assert s[0] == s[..i][0];
      assert s[1..][..i - 1] == s[1..i];
      assert forall k :: 0 <= k < i - 1 ==> s[1..i][k] == s[..i][k + 1];
      IndexOfIs(s[1..], c, i - 1);
    }
  }

  /** A split whose first separator is at `i` starts with the piece before it. */
  lemma SplitAt(s: string, sep: char, i: nat)
    requires i < |s| && s[i] == sep && sep !in s[..i]
    ensures Split(s, sep) == [s[..i]] + Split(s[i + 1..], sep)
  {
    IndexOfIs(s, sep, i);
  }

  /** Splitting the join of separator-free pieces gives back the pieces. */
  lemma {:induction false} SplitJoin(parts: seq<string>, sep: char)
    requires |parts| >= 1
    requires forall i :: 0 <= i < |parts| ==> sep !in parts[i]
    ensures Split(Join(parts, sep), sep) == parts
  {
    if |parts| > 1 {
      var first, rest := parts[0], parts[1..];
      assert parts == [first] + rest;
      forall i | 0 <= i < |rest| ensures sep !in rest[i] {
        assert rest[i] == parts[i + 1];
      }
      SplitJoin(rest, sep);
      var tail := Join(rest, sep);
      var s := first + [sep] + tail;
      JoinCons(first, rest, sep);
      assert s[..|first|] == first && s[|first|] == sep && s[|first| + 1..] == tail;
      SplitAt(s, sep, |first|);
    }
  }

  lemma {:induction false} JoinAppend(p: seq<string>, q: seq<string>, sep: char)
    requires |p| >= 1 && |q| >= 1
    ensures Join(p + q, sep) == Join(p, sep) + [sep] + Join(q, sep)
  {
    if |p| > 1 {
      assert (p + q)[1..] == p[1..] + q;
      JoinAppend(p[1..], q, sep);
    }
  }

  /** A separator splits a string into the pieces of either side. */
  lemma SplitAround(a: string, b: string, sep: char)
    ensures Split(a + [sep] + b, sep) == Split(a, sep) + Split(b, sep)
  {
    var pa, pb := Split(a, sep), Split(b, sep);
    var both := pa + pb;
    forall i | 0 <= i < |both| ensures sep !in both[i] {
      if i < |pa| {
        assert both[i] == pa[i];
      } else {
        assert both[i] == pb[i - |pa|];
      }
    }
    assert Join(both, sep) == a + [sep] + b by {
      JoinSplit(a, sep);
      JoinSplit(b, sep);
      JoinAppend(pa, pb, sep);
    }
    SplitJoin(both, sep);
  }

  /** `Path.GetExtension(path)` on Unix: from the last '.' to the end, or ""
      when there is no '.', when the '.' is the last character, or when a '/'
      comes after it. */
  function GetExtension(path: string): (ext: string)
    ensures ext == "" <==> (var i := LastIndexOf(path, '.');
                            i < 0 || i == |path| - 1 || '/' in path[i + 1..])
    ensures ext != "" ==> (var i := LastIndexOf(path, '.');
                           0 <= i < |path| - 1 && ext == path[i..] && ext[0] == '.' && '/' !in ext)
    ensures '.' !in path ==> ext == ""
  {
    var i := LastIndexOf(path, '.');
    if i < 0 || i == |path| - 1 || '/' in path[i + 1..] then "" else path[i..]
  }

  /** `s.Replace(oldValue, newValue)`: every non-overlapping occurrence, from
      left to right. .NET rejects an empty `oldValue` with an
      `ArgumentException`; callers must rule that case out first. */
  function Replace(s: string, oldValue: string, newValue: string): (r: string)
    requires oldValue != ""
    ensures oldValue[0] !in s ==> r == s
    ensures newValue == "" ==> |r| <= |s|
    decreases |s|
  {
    if |s| < |oldValue| then s
    else if s[..|oldValue|] == oldValue then newValue + Replace(s[|oldValue|..], oldValue, newValue)
    else [s[0]] + Replace(s[1..], oldValue, newValue)
  }

  /** `t` occurs in `s` starting at position `i`. */
  predicate OccursAt(s: string, t: string, i: int)
  {
    0 <= i && i + |t| <= |s| && s[i..i + |t|] == t
  }

  /** A string in which `oldValue` does not occur is left as it is. */
  lemma {:induction false} ReplaceAbsent(s: string, oldValue: string, newValue: string)
    requires oldValue != ""
    requires forall i :: 0 <= i <= |s| ==> !OccursAt(s, oldValue, i)
    ensures Replace(s, oldValue, newValue) == s
    decreases |s|
  {
    if |s| >= |oldValue| {
      assert !OccursAt(s, oldValue, 0);
      var rest := s[1..];
      forall i | 0 <= i <= |rest| ensures !OccursAt(rest, oldValue, i) {
        assert !OccursAt(s, oldValue, i + 1);
        assert i + |oldValue| <= |rest| ==> rest[i..i + |oldValue|] == s[i + 1..i + 1 + |oldValue|];
      }
      ReplaceAbsent(rest, oldValue, newValue);
      assert s == [s[0]] + rest;
    }
  }

  /** The replacement goes from left to right: the text before the first
      occurrence is kept, that occurrence is replaced, and the replacement
      goes on after it. */
  lemma {:induction false} ReplaceFirst(a: string, oldValue: string, b: string, newValue: string)
    requires oldValue != ""
    requires forall i :: 0 <= i < |a| ==> !OccursAt(a + oldValue + b, oldValue, i)
    ensures Replace(a + oldValue + b, oldValue, newValue) == a + newValue + Replace(b, oldValue, newValue)
    decreases |a|
  {
    var s := a + oldValue + b;
    if a == [] {
      assert s == oldValue + b;
      assert s[..|oldValue|] == oldValue && s[|oldValue|..] == b;
    } else {
      assert !OccursAt(s, oldValue, 0);
      var a' := a[1..];
      assert s[1..] == a' + oldValue + b;
      forall i | 0 <= i < |a'| ensures !OccursAt(a' + oldValue + b, oldValue, i) {
        assert !OccursAt(s, oldValue, i + 1);
      }
      ReplaceFirst(a', oldValue, b, newValue);
      assert a + newValue + Replace(b, oldValue, newValue) == [a[0]] + (a' + newValue + Replace(b, oldValue, newValue));
    }
  }

  /** The file name without its extension, as `ExtractPublicId` computes it: cut at
      the last '.', but only when that '.' is not the first character. */
  function StripExtension(fileName: string): (stem: string)
    ensures LastIndexOf(fileName, '.') > 0 ==>
              stem == fileName[..LastIndexOf(fileName, '.')] && '.' !in fileName[|stem| + 1..]
    ensures LastIndexOf(fileName, '.') <= 0 ==> stem == fileName
  {
    var dot := LastIndexOf(fileName, '.');
    if dot > 0 then fileName[..dot] else fileName
  }

  /** The last element of a split path. */
  function Last(parts: seq<string>): string
    requires |parts| >= 1
  {
    parts[|parts| - 1]
  }

  /** `ExtractPublicId` as written. A string that does not start with "http" is
      already a public id. Otherwise its URI path (`absolutePath`, the part of
      the URI the method reads) is split at '/': with at most two pieces the id
      is the last piece without its extension; with more, it is the last two
      raw pieces joined by "/", from which every occurrence of the extension
      of the ALREADY STRIPPED name is removed, and that extension is usually
      empty, which `Replace` rejects. */
  function ExtractPublicId(urlOrPublicId: string, absolutePath: string): (r: Extracted)
    ensures !StartsWith(urlOrPublicId, "http") ==> r == Returned(urlOrPublicId)
    ensures StartsWith(urlOrPublicId, "http") && |Split(absolutePath, '/')| <= 2 ==>
              r == Returned(StripExtension(Last(Split(absolutePath, '/'))))
    ensures r == ArgumentError <==>
              && StartsWith(urlOrPublicId, "http")
              && |Split(absolutePath, '/')| > 2
              && GetExtension(StripExtension(Last(Split(absolutePath, '/')))) == ""
    ensures r.Returned? && StartsWith(urlOrPublicId, "http") && |Split(absolutePath, '/')| > 2 ==>
              var parts := Split(absolutePath, '/');
              r.id == Replace(parts[|parts| - 2] + "/" + Last(parts), GetExtension(StripExtension(Last(parts))), "")
  {
    if !StartsWith(urlOrPublicId, "http") then Returned(urlOrPublicId)
    else
      var parts := Split(absolutePath, '/');
      var fileName := StripExtension(Last(parts));
      if |parts| > 2 then
        var ext := GetExtension(fileName);
        if ext == "" then ArgumentError
        else Returned(Replace(parts[|parts| - 2] + "/" + Last(parts), ext, ""))
      else Returned(fileName)
  }

  /** The public id the method is evidently meant to produce: the folder piece
      and the extension-free file name joined by "/" when the path has more
      than two pieces, the extension-free file name otherwise. It never fails. */
  function IntendedPublicId(urlOrPublicId: string, absolutePath: string): (id: string)
    ensures !StartsWith(urlOrPublicId, "http") ==> id == urlOrPublicId
    ensures StartsWith(urlOrPublicId, "http") && |Split(absolutePath, '/')| <= 2 ==>
              Returned(id) == ExtractPublicId(urlOrPublicId, absolutePath)
  {
    if !StartsWith(urlOrPublicId, "http") then urlOrPublicId
    else
      var parts := Split(absolutePath, '/');
      var fileName := StripExtension(Last(parts));
      if |parts| > 2 then parts[|parts| - 2] + "/" + fileName else fileName
  }

  /** The path of a stored image URL: some leading pieces, then a folder, then
      a file name made of a non-empty stem, a '.', and an extension. */
  predicate IsStoredPath(path: string, prefix: string, folder: string, stem: string, ext: string)
  {
    && path == prefix + "/" + folder + "/" + stem + "." + ext
    && '/' !in folder && '/' !in stem && '/' !in ext
    && '.' !in ext && stem != ""
  }

  /** The last two pieces of a stored path are the folder and the file name. */
  lemma StoredPathPieces(path: string, prefix: string, folder: string, stem: string, ext: string)
    requires IsStoredPath(path, prefix, folder, stem, ext)
    ensures var parts := Split(path, '/');
      |parts| > 2 && parts[|parts| - 2] == folder && Last(parts) == stem + "." + ext
  {
    var file := stem + "." + ext;
    var inner := folder + "/" + file;
    assert Split(inner, '/') == [folder, file] by {
      assert '/' !in file by {
        assert forall k :: 0 <= k < |file| ==> file[k] == '.' || file[k] in stem || file[k] in ext;
      }
      SplitAround(folder, file, '/');
    }
    assert Split(path, '/') == Split(prefix, '/') + [folder, file] by {
      assert path == prefix + "/" + inner;
      SplitAround(prefix, inner, '/');
    }
  }

  /** On a stored path, the file name loses exactly its extension. */
  lemma StemOfStoredFile(stem: string, ext: string)
    requires '.' !in ext && stem != ""
    ensures StripExtension(stem + "." + ext) == stem
  {
    LastDot(stem, ext);
    assert (stem + "." + ext)[..|stem|] == stem;
  }

  /** The last '.' of "stem.ext" is the one before an extension without '.'. */
  lemma LastDot(stem: string, ext: string)
    requires '.' !in ext
    ensures LastIndexOf(stem + "." + ext, '.') == |stem|
  {
    var file := stem + "." + ext;
    assert file[|stem|] == '.';
    assert file[|stem| + 1..] == ext;
    var i := LastIndexOf(file, '.');
    assert forall k :: |stem| < k < |file| ==> file[k] == ext[k - |stem| - 1];
    assert forall k :: i < k < |file| ==> file[k] == file[i + 1..][k - i - 1];
  }

  /** As written, a file with two extensions loses the inner one instead of
      failing: a path ending in "folder/stem.mid.ext" gives "folder/stem.ext"
      (when `mid` does not begin `ext`, so ".mid" occurs only once). */
  lemma AsWrittenDropsInnerExtension(url: string, path: string, folder: string,
                                     stem: string, mid: string, ext: string)
    requires StartsWith(url, "http")
    requires |Split(path, '/')| > 2
    requires Split(path, '/')[|Split(path, '/')| - 2] == folder
    requires Last(Split(path, '/')) == stem + "." + mid + "." + ext
    requires '.' !in folder && '.' !in stem && '.' !in mid && '.' !in ext
    requires '/' !in mid && mid != "" && !(mid <= ext)
    ensures ExtractPublicId(url, path) == Returned(folder + "/" + stem + "." + ext)
  {
    var a, t, b := folder + "/" + stem, "." + mid, "." + ext;
    var joined := folder + "/" + (stem + "." + mid + "." + ext);
    InnerExtension(stem, mid, ext);
    Regroup(folder, stem, mid, ext);
    OnlyLeadingDot(mid, ext);
    DropInner(a, t, b);
    ExtractedFromLongPath(url, path, joined, t, a + b);
  }

  /** "folder/stem.mid.ext" as the three parts `Replace` sees. */
  lemma Regroup(folder: string, stem: string, mid: string, ext: string)
    ensures folder + "/" + (stem + "." + mid + "." + ext) == (folder + "/" + stem) + ("." + mid) + ("." + ext)
    ensures (folder + "/" + stem) + ("." + ext) == folder + "/" + stem + "." + ext
  {
  }

  /** What `ExtractPublicId` removes from "stem.mid.ext" is ".mid". */
  lemma InnerExtension(stem: string, mid: string, ext: string)
    requires '.' !in mid && '/' !in mid && mid != "" && '.' !in ext
    ensures GetExtension(StripExtension(stem + "." + mid + "." + ext)) == "." + mid
  {
    StemOfStoredFile(stem + "." + mid, ext);
    ExtensionOf(stem, mid);
  }

  /** With more than two pieces and a non-empty extension `t`, `ExtractPublicId`
      returns what `Replace` makes of the last two pieces joined. */
  lemma ExtractedFromLongPath(url: string, path: string, joined: string, t: string, id: string)
    requires StartsWith(url, "http") && |Split(path, '/')| > 2
    requires Split(path, '/')[|Split(path, '/')| - 2] + "/" + Last(Split(path, '/')) == joined
    requires GetExtension(StripExtension(Last(Split(path, '/')))) == t != ""
    requires Replace(joined, t, "") == id
    ensures ExtractPublicId(url, path) == Returned(id)
  {
  }

  /** The extension of "stem.mid" is ".mid" when `mid` has no '.' or '/'. */
  lemma ExtensionOf(stem: string, mid: string)
    requires '.' !in mid && '/' !in mid && mid != ""
    ensures GetExtension(stem + "." + mid) == "." + mid
  {
    var name := stem + "." + mid;
    LastDot(stem, mid);
    assert name[|stem| + 1..] == mid;
    assert name[|stem|..] == "." + mid;
  }

  /** Removing `t`, which starts with '.', from `a + t + b` leaves `a + b`
      when `a` has no '.' and `t` does not occur in `b`. */
  lemma DropInner(a: string, t: string, b: string)
    requires '.' !in a && t != [] && t[0] == '.'
    requires forall i :: 0 <= i <= |b| ==> !OccursAt(b, t, i)
    ensures Replace(a + t + b, t, "") == a + b
  {
    assert Replace(a + t + b, t, "") == a + "" + Replace(b, t, "") by {
      NoDotBefore(a, t, b);
      ReplaceFirst(a, t, b, "");
    }
    ReplaceAbsent(b, t, "");
    assert a + "" + b == a + b;
  }

  /** ".mid" occurs in ".ext", whose only '.' is the first character, only
      when `mid` begins `ext`. */
  lemma OnlyLeadingDot(mid: string, ext: string)
    requires '.' !in ext && !(mid <= ext)
    ensures forall i :: 0 <= i <= |"." + ext| ==> !OccursAt("." + ext, "." + mid, i)
  {
    var b, t := "." + ext, "." + mid;
    forall i | 0 <= i <= |b| ensures !OccursAt(b, t, i) {
      if 0 < i && i + |t| <= |b| {
        assert b[i..i + |t|][0] == b[i] == ext[i - 1];
      } else if i == 0 && |t| <= |b| {
        assert b[..|t|][1..] == ext[..|mid|];
      }
    }
  }

  /** A text starting with '.' occurs nowhere inside a prefix without '.'. */
  lemma NoDotBefore(a: string, t: string, b: string)
    requires '.' !in a && t != [] && t[0] == '.'
    ensures forall i :: 0 <= i < |a| ==> !OccursAt(a + t + b, t, i)
  {
    var s := a + t + b;
    forall i | 0 <= i < |a| ensures !OccursAt(s, t, i) {
      assert s[i] == a[i];
      assert s[i..i + |t|][0] == s[i];
    }
  }

  /** A secure URL of a file named "photo.tar.gz": the method as written
      gives "folder/photo.gz", the corrected one "folder/photo.tar". */
  lemma AsWrittenDoubleExtensionExample()
    ensures var path := "/a" + "/" + "folder" + "/" + ("photo" + "." + "tar") + "." + "gz";
            var url := "https" + "://x" + path;
            && ExtractPublicId(url, path) == Returned("folder" + "/" + "photo" + "." + "gz")
            && IntendedPublicId(url, path) == "folder" + "/" + ("photo" + "." + "tar")
  {
    var prefix, folder, stem, mid, ext := "/a", "folder", "photo", "tar", "gz";
    var path := prefix + "/" + folder + "/" + (stem + "." + mid) + "." + ext;
    var url := "https" + "://x" + path;
    assert StartsWith(url, "http");
    StoredPathPieces(path, prefix, folder, stem + "." + mid, ext);
    AsWrittenDropsInnerExtension(url, path, folder, stem, mid, ext);
    IntendedRecoversPublicId(url, path, prefix, folder, stem + "." + mid, ext);
  }

  /** The intended extraction gives back "folder/stem" for every stored URL. */
  lemma IntendedRecoversPublicId(url: string, path: string, prefix: string, folder: string, stem: string, ext: string)
    requires StartsWith(url, "http")
    requires IsStoredPath(path, prefix, folder, stem, ext)
    ensures IntendedPublicId(url, path) == folder + "/" + stem
  {
    StoredPathPieces(path, prefix, folder, stem, ext);
    StemOfStoredFile(stem, ext);
  }

  /** The same stored URL makes the method as written fail when the stem has
      no '.' of its own: the extension it tries to remove is empty. */
  lemma AsWrittenRejectsStoredUrl(url: string, path: string, prefix: string, folder: string, stem: string, ext: string)
    requires StartsWith(url, "http")
    requires IsStoredPath(path, prefix, folder, stem, ext)
    requires '.' !in stem
    ensures ExtractPublicId(url, path) == ArgumentError
  {
    StoredPathPieces(path, prefix, folder, stem, ext);
    StemOfStoredFile(stem, ext);
  }

  /** A concrete secure URL of the kind the storage returns,
      https://res.cloudinary.com/demo/image/upload/v1/shop/photo.jpg. */
  lemma AsWrittenRejectsCloudinaryUrl()
    ensures var path := "/demo/image/upload/v1" + "/" + "shop" + "/" + "photo" + "." + "jpg";
            var url := "https" + "://res.cloudinary.com" + path;
            ExtractPublicId(url, path) == ArgumentError && IntendedPublicId(url, path) == "shop/photo"
  {
    var prefix, folder, stem, ext := "/demo/image/upload/v1", "shop", "photo", "jpg";
    var path := prefix + "/" + folder + "/" + stem + "." + ext;
    var url := "https" + "://res.cloudinary.com" + path;
    assert StartsWith(url, "http");
    AsWrittenRejectsStoredUrl(url, path, prefix, folder, stem, ext);
    IntendedRecoversPublicId(url, path, prefix, folder, stem, ext);
  }
}
