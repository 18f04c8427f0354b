/**
 * The member-name normalisation of the archive extractor: every backslash of a
 * member name becomes a slash, leading separators are stripped, and a name that
 * then ends in a slash is a directory entry, anything else a file entry.
 */
module ZipNames {
  import opened Text

  predicate IsSeparator(c: char)
  {
    c == '/' || c == '\\'
  }

  /** Each backslash replaced by a slash, every other character kept. */
  function Slashes(s: string): (r: string)
    ensures |r| == |s|
    ensures forall i :: 0 <= i < |s| ==> r[i] == if s[i] == '\\' then '/' else s[i]
  {
    seq(|s|, i requires 0 <= i < |s| => if s[i] == '\\' then '/' else s[i])
  }

  /** `str.replace('\\', '/')` is the character map above. */
  lemma {:induction false} ReplaceBackslashes(s: string)
    ensures ReplaceAll(s, "\\", "/") == Slashes(s)
    decreases |s|
  {
    if s != [] {
      ReplaceCharStep('\\', s, "/");
      ReplaceBackslashes(s[1..]);
      assert Slashes(s) == (if s[0] == '\\' then "/" else [s[0]]) + Slashes(s[1..]);
    }
  }

  /** `str.lstrip('/\\')`: the name without its leading separators. */
  function StripSeparators(s: string): (r: string)
    ensures r == [] || !IsSeparator(r[0])
    decreases |s|
  {
    if s != [] && IsSeparator(s[0]) then StripSeparators(s[1..]) else s
  }

  /** What is left is a suffix of the name. */
  lemma {:induction false} StripSuffix(s: string)
    ensures |StripSeparators(s)| <= |s| && StripSeparators(s) == s[|s| - |StripSeparators(s)|..]
    decreases |s|
  {
    if s != [] && IsSeparator(s[0]) {
      StripSuffix(s[1..]);
      assert s[1..][|s| - 1 - |StripSeparators(s)|..] == s[|s| - |StripSeparators(s)|..];
    }
  }

  /** `name.replace('\\', '/').lstrip('/\\')`. */
  function Normalize(name: string): string
  {
    StripSeparators(ReplaceAll(name, "\\", "/"))
  }

  /** `name.endswith('/')`. */
  predicate IsDirectory(name: string)
  {
    |name| > 0 && name[|name| - 1] == '/'
  }

  /** What the extractor does with one member: create a directory or write a file at the normalised path. */
  datatype Action = MakeDirectory(path: string) | WriteFile(path: string)

  function ActionFor(name: string): Action
  {
    var path := Normalize(name);
    if IsDirectory(path) then MakeDirectory(path) else WriteFile(path)
  }

  /** A normalised name holds no backslash and does not start with a separator. */
  predicate Clean(path: string)
  {
    '\\' !in path && (path == [] || !IsSeparator(path[0]))
  }

  lemma SlashesNoBackslash(s: string)
    ensures '\\' !in Slashes(s)
  {
    var r := Slashes(s);
    forall i | 0 <= i < |r| ensures r[i] != '\\' {
    }
  }

  /** Normalising is stripping the slash spelling. */
  lemma NormalizeSlashes(name: string)
    ensures Normalize(name) == StripSeparators(Slashes(name))
  {
    ReplaceBackslashes(name);
  }

  lemma StripClean(t: string)
    requires '\\' !in t
    ensures Clean(StripSeparators(t))
  {
    var r := StripSeparators(t);
    StripSuffix(t);
    forall i | 0 <= i < |r| ensures r[i] != '\\' {
      assert r[i] == t[|t| - |r| + i];
    }
  }

  /** The result never starts with a separator and holds no backslash. */
  lemma NormalizeClean(name: string)
    ensures Clean(Normalize(name))
  {
    NormalizeSlashes(name);
    SlashesNoBackslash(name);
    StripClean(Slashes(name));
  }

  /** A clean name is its own normal form. */
  lemma CleanIsNormal(name: string)
    requires Clean(name)
    ensures Normalize(name) == name
  {
    ReplaceBackslashes(name);
    assert Slashes(name) == name;
  }

  /** Normalising twice is normalising once. */
  lemma NormalizeIdempotent(name: string)
    ensures Normalize(Normalize(name)) == Normalize(name)
  {
    NormalizeClean(name);
    CleanIsNormal(Normalize(name));
  }

  /** Two spellings that differ only in which separator stands at each place. */
  predicate SameUpToSeparators(a: string, b: string)
  {
    |a| == |b| && forall i :: 0 <= i < |a| ==> a[i] == b[i] || (IsSeparator(a[i]) && IsSeparator(b[i]))
  }

  /** A backslash-separated name and its slash spelling normalise to the same path. */
  lemma SeparatorsAgree(a: string, b: string)
    requires SameUpToSeparators(a, b)
    ensures Normalize(a) == Normalize(b)
  {
    ReplaceBackslashes(a);
    ReplaceBackslashes(b);
    assert Slashes(a) == Slashes(b);
  }

  /** Some character of the name is not a separator. */
  predicate HasName(s: string)
  {
    exists i :: 0 <= i < |s| && !IsSeparator(s[i])
  }

  lemma {:induction false} StripKeepsEnd(s: string)
    ensures StripSeparators(s) != [] <==> HasName(s)
    ensures StripSeparators(s) != [] ==> StripSeparators(s)[|StripSeparators(s)| - 1] == s[|s| - 1]
    decreases |s|
  {
    if s != [] && IsSeparator(s[0]) {
      StripKeepsEnd(s[1..]);
      if HasName(s) {
        var i :| 0 <= i < |s| && !IsSeparator(s[i]);
        assert s[1..][i - 1] == s[i];
      }
      if HasName(s[1..]) {
        var i :| 0 <= i < |s[1..]| && !IsSeparator(s[1..][i]);
        assert s[i + 1] == s[1..][i];
      }
    } else if s != [] {
      assert !IsSeparator(s[0]);
    }
  }

  /**
   * An entry is a directory exactly when its name ends in a separator, slash or
   * backslash, and is not made of separators only (that name normalises to the
   * empty path, which is a file entry).
   */
  lemma DirectoryIff(name: string)
    ensures IsDirectory(Normalize(name)) <==> HasName(name) && IsSeparator(name[|name| - 1])
  {
    NormalizeSlashes(name);
    StripKeepsEnd(Slashes(name));
    SlashesKeepNames(name);
  }

  /** The slash spelling has a name where the original has one, and ends in a separator where it does. */
  lemma SlashesKeepNames(name: string)
    ensures HasName(Slashes(name)) <==> HasName(name)
    ensures name != [] ==> (Slashes(name)[|name| - 1] == '/' <==> IsSeparator(name[|name| - 1]))
  {
    var t := Slashes(name);
    if HasName(name) {
      var i :| 0 <= i < |name| && !IsSeparator(name[i]);
      assert !IsSeparator(t[i]);
    }
    if HasName(t) {
      var i :| 0 <= i < |t| && !IsSeparator(t[i]);
      assert !IsSeparator(name[i]);
    }
  }

  /** The extractor's loop over the archive's members: one action per member, in archive order. */
  method ExtractActions(names: seq<string>) returns (actions: seq<Action>)
    ensures |actions| == |names|
    ensures forall i :: 0 <= i < |names| ==> actions[i] == ActionFor(names[i]) && Clean(actions[i].path)
  {
    actions := [];
    var i := 0;
    while i < |names|
      invariant 0 <= i <= |names|
      invariant |actions| == i
      invariant forall k :: 0 <= k < i ==> actions[k] == ActionFor(names[k])
    {
      actions := actions + [ActionFor(names[i])];
      i := i + 1;
    }
    forall k | 0 <= k < |names| ensures Clean(actions[k].path) {
      ActionClean(names[k]);
    }
  }

  lemma ActionClean(name: string)
    ensures ActionFor(name).path == Normalize(name) && Clean(ActionFor(name).path)
  {
    NormalizeClean(name);
  }

  /** The archive names the extractor's own check uses, in both spellings: each is written as a file at its slash path. */
  lemma ExampleReadme()
    ensures ActionFor("my-plugin\\README.md") == WriteFile("my-plugin/README.md")
  {
    ExampleName("my-plugin\\README.md", "my-plugin/README.md");
  }

  lemma ExampleReadmeSlash()
    ensures ActionFor("my-plugin/README2.md") == WriteFile("my-plugin/README2.md")
  {
    ExampleName("my-plugin/README2.md", "my-plugin/README2.md");
  }

  lemma ExampleStyle()
    ensures ActionFor("my-plugin\\assets\\css\\style.css") == WriteFile("my-plugin/assets/css/style.css")
  {
    var name, path := "my-plugin\\assets\\css\\style.css", "my-plugin/assets/css/style.css";
    assert SameUpToSeparators(name, path) by {
      assert |name| == |path| == 30;
      forall i | 0 <= i < 30 ensures name[i] == path[i] || (IsSeparator(name[i]) && IsSeparator(path[i])) {
      }
    }
    assert Clean(path) && path[29] == 's';
    ExampleName(name, path);
  }

  lemma ExampleStyleSlash()
    ensures ActionFor("my-plugin/assets/css/style2.css") == WriteFile("my-plugin/assets/css/style2.css")
  {
    ExampleName("my-plugin/assets/css/style2.css", "my-plugin/assets/css/style2.css");
  }

  lemma ExampleName(name: string, path: string)
    requires SameUpToSeparators(name, path) && Clean(path) && path != [] && path[|path| - 1] != '/'
    ensures ActionFor(name) == WriteFile(path)
  {
    SeparatorsAgree(name, path);
    CleanIsNormal(path);
  }
}
