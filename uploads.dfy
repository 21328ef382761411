/**
 * The two image upload routes: the guards on the submitted form entry, the
 * file-name sanitiser they share, and the storage path built from the upload
 * time and the sanitised name.
 */
module Uploads {
  import opened Platform
  import opened JsText

  /** `[a-zA-Z0-9._-]`; `[\w.\-]` is the same class. */
  predicate IsSafeChar(c: char) {
    ('a' <= c <= 'z') || ('A' <= c <= 'Z') || ('0' <= c <= '9') || c == '.' || c == '_' || c == '-'
  }

  predicate AllSafe(s: string) {
    forall i | 0 <= i < |s| :: IsSafeChar(s[i])
  }

  predicate NoSpace(s: string) {
    forall i | 0 <= i < |s| :: !IsJsSpace(s[i])
  }

  /** `.replace(/\s+/g, "-")`: every maximal run of white space becomes one `-`. */
  function CollapseSpaceRuns(s: string): (r: string)
    ensures NoSpace(r)
    ensures |r| <= |s|
    decreases |s|
  {
    if s == [] then []
    else if IsJsSpace(s[0]) then "-" + CollapseSpaceRuns(s[LeadingSpace(s)..])
    else [s[0]] + CollapseSpaceRuns(s[1..])
  }

  /** A string without white space is left alone. */
  lemma {:induction false} CollapseWithoutSpace(s: string)
    requires NoSpace(s)
    ensures CollapseSpaceRuns(s) == s
  {
    if s != [] {
      assert !IsJsSpace(s[0]);
      CollapseWithoutSpace(s[1..]);
      assert [s[0]] + s[1..] == s;
    }
  }

  /** Runs of any length collapse alike: a run of white space between two words yields one `-`. */
  lemma {:induction false} CollapseRun(a: string, run: string, b: string)
    requires run != [] && AllSpace(run) && NoSpace(a)
    requires b == [] || !IsJsSpace(b[0])
    ensures CollapseSpaceRuns(a + run + b) == a + "-" + CollapseSpaceRuns(b)
  {
    if a == [] {
      assert a + run + b == run + b;
      CollapseLeadingRun(run, b);
    } else {
      var s := a + run + b;
      assert s[0] == a[0] && !IsJsSpace(a[0]);
      assert s[1..] == a[1..] + run + b;
      assert CollapseSpaceRuns(s) == [a[0]] + CollapseSpaceRuns(s[1..]);
      CollapseRun(a[1..], run, b);
      assert [a[0]] + (a[1..] + "-" + CollapseSpaceRuns(b)) == a + "-" + CollapseSpaceRuns(b);
    }
  }

  /** A leading run of white space becomes one `-`. */
  lemma CollapseLeadingRun(run: string, b: string)
    requires run != [] && AllSpace(run)
    requires b == [] || !IsJsSpace(b[0])
    ensures CollapseSpaceRuns(run + b) == "-" + CollapseSpaceRuns(b)
  {
    var s := run + b;
    assert IsJsSpace(s[0]);
    LeadingSpaceOfRun(run, b);
    assert s[|run|..] == b;
  }

  /** The leading white space of a run followed by a word is the run. */
  lemma {:induction false} LeadingSpaceOfRun(run: string, b: string)
    requires AllSpace(run)
    requires b == [] || !IsJsSpace(b[0])
    ensures LeadingSpace(run + b) == |run|
  {
    if run != [] {
      assert (run + b)[0] == run[0];
      assert (run + b)[1..] == run[1..] + b;
      LeadingSpaceOfRun(run[1..], b);
    } else {
      assert run + b == b;
    }
  }

  /** No safe character is white space. */
  lemma SafeHasNoSpace(s: string)
    requires AllSafe(s)
    ensures NoSpace(s)
  {
    forall i | 0 <= i < |s| ensures !IsJsSpace(s[i]) {
      assert IsSafeChar(s[i]);
    }
  }

  /** `.replace(/[^a-zA-Z0-9._-]/g, "")`: every other character is dropped. */
  function KeepSafe(s: string): (r: string)
    ensures AllSafe(r)
    ensures |r| <= |s|
    ensures AllSafe(s) ==> r == s
  {
    if s == [] then []
    else (if IsSafeChar(s[0]) then [s[0]] else []) + KeepSafe(s[1..])
  }

  /** A single character is kept exactly when it is in the safe class. */
  lemma KeepSafeChar(c: char)
    ensures KeepSafe([c]) == (if IsSafeChar(c) then [c] else [])
  {
    assert [c][1..] == [];
  }

  /**
   * The replacement works character by character: the safe characters of a
   * mixed name survive in their order, so "photo(1).jpg" becomes "photo1.jpg".
   */
  lemma {:induction false} KeepSafeAppend(a: string, b: string)
    ensures KeepSafe(a + b) == KeepSafe(a) + KeepSafe(b)
  {
    if a == [] {
      assert a + b == b;
    } else {
      var head := if IsSafeChar(a[0]) then [a[0]] else [];
      assert (a + b)[0] == a[0] && (a + b)[1..] == a[1..] + b;
      assert KeepSafe(a + b) == head + KeepSafe(a[1..] + b);
      assert KeepSafe(a) == head + KeepSafe(a[1..]);
      KeepSafeAppend(a[1..], b);
      assert head + (KeepSafe(a[1..]) + KeepSafe(b)) == (head + KeepSafe(a[1..])) + KeepSafe(b);
    }
  }

  /** A name without any safe character is emptied. */
  lemma {:induction false} KeepSafeNoneSafe(s: string)
    requires forall i | 0 <= i < |s| :: !IsSafeChar(s[i])
    ensures KeepSafe(s) == []
  {
    if s != [] {
      KeepSafeNoneSafe(s[1..]);
    }
  }

  /** The sanitised object name: `(name || "image")`, white-space runs to `-`, unsafe characters dropped. */
  function SafeName(name: string): (r: string)
    ensures AllSafe(r)
    ensures name == "" ==> r == "image"
  {
    if name == "" then
      assert AllSafe("image") && NoSpace("image");
      CollapseWithoutSpace("image");
      KeepSafe(CollapseSpaceRuns("image"))
    else KeepSafe(CollapseSpaceRuns(name))
  }

  /** A name is left unchanged exactly when it is non-empty and already made of safe characters. */
  lemma SafeNameFixedPoints(s: string)
    ensures SafeName(s) == s <==> s != [] && AllSafe(s)
  {
    if s != [] && AllSafe(s) {
      SafeHasNoSpace(s);
      CollapseWithoutSpace(s);
    }
    if s == [] {
      assert AllSafe("image");
      assert NoSpace("image");
      CollapseWithoutSpace("image");
    }
  }

  /**
   * Sanitising a non-empty sanitised name changes nothing; an empty one falls
   * back to `"image"` the second time.
   */
  lemma SafeNameIdempotent(name: string)
    ensures SafeName(name) != [] ==> SafeName(SafeName(name)) == SafeName(name)
    ensures SafeName(name) == [] ==> SafeName(SafeName(name)) == "image"
  {
    SafeNameFixedPoints(SafeName(name));
  }

  /**
   * The `"image"` fallback is applied before sanitising, so a non-empty name
   * with neither a safe character nor white space (Swedish letters only, say)
   * sanitises to the empty string.
   */
  lemma SafeNameCanBeEmpty(name: string)
    requires name != [] && NoSpace(name)
    requires forall i | 0 <= i < |name| :: !IsSafeChar(name[i])
    ensures SafeName(name) == ""
  {
    CollapseWithoutSpace(name);
    KeepSafeNoneSafe(name);
  }

  /**
   * An unsafe character that is not white space is dropped from between two
   * safe parts: "photo(1).jpg" becomes "photo1.jpg".
   */
  lemma SafeNameDropsUnsafe(a: string, c: char, b: string)
    requires AllSafe(a) && AllSafe(b) && !IsSafeChar(c) && !IsJsSpace(c)
    ensures SafeName(a + [c] + b) == a + b
  {
    var name := a + [c] + b;
    SafeHasNoSpace(a);
    SafeHasNoSpace(b);
    assert NoSpace(name) by {
      forall i | 0 <= i < |name| ensures !IsJsSpace(name[i]) {
        if i < |a| {
          assert name[i] == a[i];
        } else if i > |a| {
          assert name[i] == b[i - |a| - 1];
        }
      }
    }
    CollapseWithoutSpace(name);
    KeepSafeAppend(a + [c], b);
    KeepSafeAppend(a, [c]);
    KeepSafeChar(c);
  }

  /**
   * Two names made of safe characters joined by any run of white space come
   * out joined by a single `-`: "my  photo.jpg" becomes "my-photo.jpg".
   */
  lemma SafeNameJoinsWords(a: string, run: string, b: string)
    requires AllSafe(a) && AllSafe(b) && run != [] && AllSpace(run)
    ensures SafeName(a + run + b) == a + "-" + b
  {
    var name := a + run + b;
    assert |name| >= |run| > 0;
    SafeHasNoSpace(a);
    SafeHasNoSpace(b);
    assert b == [] || IsSafeChar(b[0]);
    CollapseRun(a, run, b);
    CollapseWithoutSpace(b);
    SafeAroundDash(a, b);
    assert SafeName(name) == KeepSafe(a + "-" + b);
  }

  lemma SafeAroundDash(a: string, b: string)
    requires AllSafe(a) && AllSafe(b)
    ensures AllSafe(a + "-" + b)
  {
    var s := a + "-" + b;
    forall i | 0 <= i < |s| ensures IsSafeChar(s[i]) {
      if i < |a| {
        assert s[i] == a[i];
      } else if i > |a| {
        assert s[i] == b[i - |a| - 1];
      }
    }
  }

  /** A file submitted in the form. */
  datatype UploadedFile = UploadedFile(name: string, mimeType: string, size: nat)

  /** What `formData.get("file")` yields: nothing, a text field, or a file. */
  datatype FormEntry = NoEntry | TextEntry(text: string) | FileEntry(file: UploadedFile)

  datatype UploadResponse =
    | Uploaded(path: string)                // 200
    | UploadMissingEnv                      // 500
    | MissingFile                           // 400
    | TooLarge                              // 400
    | NotAnImage                            // 400
    | UploadStorageError(message: string)   // 500

  /** The object path: folder, upload time in milliseconds, `-`, sanitised name. */
  function ObjectPath(folder: string, now: nat, name: string): (path: string)
    ensures StartsWith(path, folder)
    ensures AllSafe(path[|folder|..])
  {
    var tail := NumberToString(now, 10) + "-" + SafeName(name);
    assert AllSafe(NumberToString(now, 10)) by {
      var d := NumberToString(now, 10);
      forall i | 0 <= i < |d| ensures IsSafeChar(d[i]) {
        assert 0 <= DigitValue(d[i]) < 10;
      }
    }
    assert (folder + tail)[|folder|..] == tail;
    folder + tail
  }

  /** Where the shorter numeral ends, the longer one still has a digit, not `-`. */
  lemma CharAfterNumeral(u: string, p: string, v: string, q: string)
    requires IsDigitString(v, 10) && |u| < |v|
    ensures (u + "-" + p)[|u|] == '-'
    ensures (v + "-" + q)[|u|] == v[|u|] != '-'
  {
    assert 0 <= DigitValue(v[|u|]);
  }

  /** A decimal numeral followed by `-` can be split off again. */
  lemma {:induction false} SplitAtDash(u: string, p: string, v: string, q: string)
    requires IsDigitString(u, 10) && IsDigitString(v, 10)
    requires u + "-" + p == v + "-" + q
    ensures u == v && p == q
  {
    var s, t := u + "-" + p, v + "-" + q;
    if |u| < |v| {
      CharAfterNumeral(u, p, v, q);
      assert false;
    } else if |v| < |u| {
      CharAfterNumeral(v, q, u, p);
      assert false;
    } else {
      assert u == s[..|u|] && v == t[..|v|];
      assert p == s[|u| + 1..] && q == t[|v| + 1..];
    }
  }

  /**
   * A timestamp's digits contain no `-`, so an object path determines the
   * upload time and the sanitised name: uploads in different milliseconds
   * never target the same object.
   */
  lemma ObjectPathDetermines(folder: string, a: nat, x: string, b: nat, y: string)
    requires ObjectPath(folder, a, x) == ObjectPath(folder, b, y)
    ensures a == b && SafeName(x) == SafeName(y)
  {
    var ta, tb := NumberToString(a, 10) + "-" + SafeName(x), NumberToString(b, 10) + "-" + SafeName(y);
    assert ObjectPath(folder, a, x)[|folder|..] == ta;
    assert ObjectPath(folder, b, y)[|folder|..] == tb;
    SplitAtDash(NumberToString(a, 10), SafeName(x), NumberToString(b, 10), SafeName(y));
    NumberToStringInjective(a, b, 10);
  }

  /** The machine image route; `now` is `Date.now()` and `uploadError` a failure of the upload. */
  function MachineImageUpload(env: Env, entry: FormEntry, now: nat, uploadError: Option<string>): (r: UploadResponse)
    ensures r == UploadMissingEnv <==> !DatabaseConfigured(env)
    ensures r == MissingFile <==> DatabaseConfigured(env) && !entry.FileEntry?
    ensures r == NotAnImage <==>
      DatabaseConfigured(env) && entry.FileEntry? && !StartsWith(entry.file.mimeType, "image/")
    ensures !r.TooLarge?
    ensures r.Uploaded? || r.UploadStorageError? ==>
      entry.FileEntry? && StartsWith(entry.file.mimeType, "image/")
    ensures r.Uploaded? ==> uploadError.None? && r.path == ObjectPath("new/", now, entry.file.name)
    ensures DatabaseConfigured(env) && entry.FileEntry? && StartsWith(entry.file.mimeType, "image/") ==>
      r == (if uploadError.Some? then UploadStorageError(uploadError.value)
            else Uploaded(ObjectPath("new/", now, entry.file.name)))
  {
    if !DatabaseConfigured(env) then UploadMissingEnv
    else if !entry.FileEntry? then MissingFile
    else if !StartsWith(entry.file.mimeType, "image/") then NotAnImage
    else
      var path := ObjectPath("new/", now, entry.file.name);
      if uploadError.Some? then UploadStorageError(uploadError.value) else Uploaded(path)
  }

  /** 8 MiB. */
  const MaxLeadImageBytes: nat := 8 * 1024 * 1024

  /** The lead image route reads its configuration trimmed. */
  function TrimmedConfigured(env: Env): (ok: bool)
    ensures ok <==> !AllSpace(OrEmpty(env.supabaseUrl)) && !AllSpace(OrEmpty(env.serviceRoleKey))
    ensures ok ==> DatabaseConfigured(env)
  {
    Trim(OrEmpty(env.supabaseUrl)) != "" && Trim(OrEmpty(env.serviceRoleKey)) != ""
  }

  /**
   * The lead image route. A non-empty text entry passes the `!file` test, its
   * `size` is undefined (so not too large) and its `type` is undefined (so not an image).
   */
  function LeadImageUpload(env: Env, entry: FormEntry, now: nat, uploadError: Option<string>): (r: UploadResponse)
    ensures r == UploadMissingEnv <==> !TrimmedConfigured(env)
    ensures r == MissingFile <==> TrimmedConfigured(env) && (entry.NoEntry? || entry == TextEntry(""))
    ensures r == TooLarge <==> TrimmedConfigured(env) && entry.FileEntry? && entry.file.size > MaxLeadImageBytes
    ensures r == NotAnImage <==>
      && TrimmedConfigured(env)
      && ((entry.TextEntry? && entry.text != "") ||
          (entry.FileEntry? && entry.file.size <= MaxLeadImageBytes && !StartsWith(entry.file.mimeType, "image/")))
    ensures r.Uploaded? ==>
      && uploadError.None? && entry.FileEntry? && entry.file.size <= MaxLeadImageBytes
      && StartsWith(entry.file.mimeType, "image/")
      && r.path == ObjectPath("leads/", now, entry.file.name)
    ensures
      && TrimmedConfigured(env) && entry.FileEntry? && entry.file.size <= MaxLeadImageBytes
      && StartsWith(entry.file.mimeType, "image/")
      ==> r == (if uploadError.Some? then UploadStorageError(uploadError.value)
                else Uploaded(ObjectPath("leads/", now, entry.file.name)))
  {
    if !TrimmedConfigured(env) then UploadMissingEnv
    else match entry
      case NoEntry => MissingFile
      case TextEntry(text) => if text == "" then MissingFile else NotAnImage
      case FileEntry(file) =>
        if file.size > MaxLeadImageBytes then TooLarge
        else if !StartsWith(file.mimeType, "image/") then NotAnImage
        else
          var path := ObjectPath("leads/", now, file.name);
          if uploadError.Some? then UploadStorageError(uploadError.value) else Uploaded(path)
  }

  /**
   * The size limit is inclusive: an image of exactly 8 MiB is stored, one
   * byte more is refused before its type is looked at.
   */
  lemma LeadImageSizeBoundary(env: Env, name: string, mimeType: string, now: nat)
    requires TrimmedConfigured(env)
    ensures StartsWith(mimeType, "image/") ==>
      LeadImageUpload(env, FileEntry(UploadedFile(name, mimeType, MaxLeadImageBytes)), now, None)
        == Uploaded(ObjectPath("leads/", now, name))
    ensures LeadImageUpload(env, FileEntry(UploadedFile(name, mimeType, MaxLeadImageBytes + 1)), now, None) == TooLarge
  {
  }
}
