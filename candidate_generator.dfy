/**
 * Candidate generation in `fuzz_url`: the words, then every extension
 * crossed with every word, then the directories; the built-in common
 * extensions and directories stand in only when all three give nothing.
 * Optional lists follow Python truthiness: `None` and `[]` behave alike.
 */
module CandidateGenerator {
  import opened Wrappers

  /** `COMMON_EXTENSIONS`: used as candidates themselves, leading dot included. */
  const CommonExtensions: seq<string> :=
    [".php", ".html", ".txt", ".xml", ".js", ".json", ".log", ".bak", ".config"]

  /** `COMMON_DIRECTORIES`. */
  const CommonDirectories: seq<string> :=
    ["admin", "backup", "uploads", "api", "include", "config", "tmp"]

  /** The word an extension is attached to when there is no wordlist. */
  const DefaultWord: string := "index"

  /** Python truthiness of an optional list: `None` and `[]` are both false. */
  predicate Truthy(xs: Option<seq<string>>)
  {
    xs.Some? && xs.value != []
  }

  /** The entries of an optional list that generation takes: none unless it is truthy. */
  function Items(xs: Option<seq<string>>): seq<string>
  {
    if Truthy(xs) then xs.value else []
  }

  /** The words every extension is attached to: the wordlist, or `["index"]` without one. */
  function Bases(wordlist: Option<seq<string>>): (b: seq<string>)
    ensures |b| >= 1
    ensures Truthy(wordlist) ==> b == wordlist.value
  {
    if Truthy(wordlist) then wordlist.value else [DefaultWord]
  }

  /** The candidate `f"{word}.{ext}"`. */
  function Dotted(word: string, ext: string): string
  {
    word + "." + ext
  }

  /** The list comprehension for one extension: `Dotted(word, ext)` for every word, in order. */
  function WithExtension(words: seq<string>, ext: string): seq<string>
  {
    seq(|words|, j requires 0 <= j < |words| => Dotted(words[j], ext))
  }

  /** What the extension loop adds: one block per extension, each block over all words. */
  function ExtensionBlock(words: seq<string>, exts: seq<string>): seq<string>
    decreases |exts|
  {
    if exts == [] then []
    else ExtensionBlock(words, exts[..|exts| - 1]) + WithExtension(words, exts[|exts| - 1])
  }

  /** `i * n` spelled out as repeated addition, so that reasoning about positions stays linear. */
  function Offset(i: nat, n: nat): nat
  {
    if i == 0 then 0 else Offset(i - 1, n) + n
  }

  lemma {:induction false} OffsetIsProduct(i: nat, n: nat)
    ensures Offset(i, n) == i * n
  {
    if i > 0 {
      OffsetIsProduct(i - 1, n);
      assert (i - 1) * n + n == i * n;
    }
  }

  lemma {:induction false} OffsetAtLeast(i: nat, n: nat)
    requires n >= 1
    ensures Offset(i, n) >= i
  {
    if i > 0 {
      OffsetAtLeast(i - 1, n);
    }
  }

  /** The extension block holds exactly one candidate per (extension, word) pair. */
  lemma {:induction false} ExtensionBlockLength(words: seq<string>, exts: seq<string>)
    ensures |ExtensionBlock(words, exts)| == Offset(|exts|, |words|)
    decreases |exts|
  {
    if exts != [] {
      ExtensionBlockLength(words, exts[..|exts| - 1]);
    }
  }

  /** Extensions form the outer loop and words the inner one. */
  lemma {:induction false} ExtensionBlockAt(words: seq<string>, exts: seq<string>, i: nat, j: nat)
    requires i < |exts| && j < |words|
    ensures Offset(i, |words|) + j < |ExtensionBlock(words, exts)|
    ensures ExtensionBlock(words, exts)[Offset(i, |words|) + j] == Dotted(words[j], exts[i])
    decreases |exts|
  {
    var n := |exts| - 1;
    var front := exts[..n];
    ExtensionBlockLength(words, front);
    if i < n {
      ExtensionBlockAt(words, front, i, j);
      assert front[i] == exts[i];
    }
  }

  /** The candidates lines 86-96 collect before the fallback check. */
  function Explicit(wordlist: Option<seq<string>>, extensions: Option<seq<string>>,
                    directories: Option<seq<string>>): seq<string>
  {
    Items(wordlist)
    + (if Truthy(extensions) then ExtensionBlock(Bases(wordlist), extensions.value) else [])
    + Items(directories)
  }

  /** The ordered candidate list that `fuzz_url` requests. */
  function Candidates(wordlist: Option<seq<string>>, extensions: Option<seq<string>>,
                      directories: Option<seq<string>>): seq<string>
  {
    var explicit := Explicit(wordlist, extensions, directories);
    if explicit == [] then CommonExtensions + CommonDirectories else explicit
  }

  /**
   * The `for ext in extensions` loop (lines 92-93): extend `allPaths` once per
   * extension, in order, with that extension's comprehension over the words.
   */
  method ExtendWithExtensions(allPaths: seq<string>, wordlist: Option<seq<string>>, exts: seq<string>)
    returns (extended: seq<string>)
    ensures extended == allPaths + ExtensionBlock(Bases(wordlist), exts)
  {
    extended := allPaths;
    for i := 0 to |exts|
      invariant extended == allPaths + ExtensionBlock(Bases(wordlist), exts[..i])
    {
      var words := if Truthy(wordlist) then wordlist.value else [DefaultWord];
      assert exts[..i + 1][..i] == exts[..i];
      extended := extended + WithExtension(words, exts[i]);
    }
    assert exts[..|exts|] == exts;
  }

  /**
   * Lines 86-101, step by step: extend with the words, then with the
   * extension blocks, then with the directories, and fall back to the common
   * lists when nothing was collected.
   */
  method BuildCandidates(wordlist: Option<seq<string>>, extensions: Option<seq<string>>,
                         directories: Option<seq<string>>)
    returns (allPaths: seq<string>)
    ensures allPaths == Candidates(wordlist, extensions, directories)
  {
    allPaths := [];
    if Truthy(wordlist) {
      allPaths := allPaths + wordlist.value;
    }
    if Truthy(extensions) {
      allPaths := ExtendWithExtensions(allPaths, wordlist, extensions.value);
    }
    if Truthy(directories) {
      allPaths := allPaths + directories.value;
    }
    assert allPaths == Explicit(wordlist, extensions, directories);
    if allPaths == [] {
      allPaths := allPaths + CommonExtensions;
      allPaths := allPaths + CommonDirectories;
    }
  }

  /**
   * The fallback applies exactly when words, extensions and directories are
   * all absent or empty; it then gives the 9 common extensions followed by the
   * 7 common directories, and otherwise the collected candidates stand.
   */
  lemma FallbackExactlyWithoutTargets(wordlist: Option<seq<string>>, extensions: Option<seq<string>>,
                                      directories: Option<seq<string>>)
    ensures Explicit(wordlist, extensions, directories) == []
            <==> !Truthy(wordlist) && !Truthy(extensions) && !Truthy(directories)
    ensures !Truthy(wordlist) && !Truthy(extensions) && !Truthy(directories) ==>
              Candidates(wordlist, extensions, directories) == CommonExtensions + CommonDirectories
              && |Candidates(wordlist, extensions, directories)| == 16
    ensures Truthy(wordlist) || Truthy(extensions) || Truthy(directories) ==>
              Candidates(wordlist, extensions, directories) == Explicit(wordlist, extensions, directories)
  {
    if Truthy(extensions) {
      var b := Bases(wordlist);
      ExtensionBlockAt(b, extensions.value, 0, 0);
    }
  }

  /** An extension list on its own rules out the fallback: each extension yields at least one candidate. */
  lemma ExtensionsPreventFallback(wordlist: Option<seq<string>>, extensions: Option<seq<string>>,
                                  directories: Option<seq<string>>)
    requires Truthy(extensions)
    ensures |Candidates(wordlist, extensions, directories)| >= |extensions.value|
    ensures Candidates(wordlist, extensions, directories) == Explicit(wordlist, extensions, directories)
  {
    var b := Bases(wordlist);
    FallbackExactlyWithoutTargets(wordlist, extensions, directories);
    ExtensionBlockLength(b, extensions.value);
    OffsetAtLeast(|extensions.value|, |b|);
  }

  /**
   * Order of the collected candidates: the words verbatim first, then the
   * extension block (`Offset(n, m)` is `n * m` long), then the directories verbatim.
   */
  lemma CandidateLayout(wordlist: Option<seq<string>>, extensions: Option<seq<string>>,
                        directories: Option<seq<string>>)
    requires Truthy(wordlist) || Truthy(extensions) || Truthy(directories)
    ensures |Candidates(wordlist, extensions, directories)|
            == |Items(wordlist)| + Offset(|Items(extensions)|, |Bases(wordlist)|) + |Items(directories)|
    ensures Candidates(wordlist, extensions, directories)[..|Items(wordlist)|] == Items(wordlist)
    ensures Candidates(wordlist, extensions, directories)
              [|Items(wordlist)| + Offset(|Items(extensions)|, |Bases(wordlist)|)..]
            == Items(directories)
  {
    FallbackExactlyWithoutTargets(wordlist, extensions, directories);
    var w, e, d, b := Items(wordlist), Items(extensions), Items(directories), Bases(wordlist);
    var block := ExtensionBlock(b, e);
    var c := w + block + d;
    assert Candidates(wordlist, extensions, directories) == c;
    ExtensionBlockLength(b, e);
    assert c[..|w|] == w;
    assert c[|w| + |block|..] == d;
  }

  /**
   * The candidate for extension `i` and word `j` sits after the words and after
   * `i` full blocks of words: extensions form the outer loop, words the inner one.
   */
  lemma CandidateForExtension(wordlist: Option<seq<string>>, extensions: Option<seq<string>>,
                              directories: Option<seq<string>>, i: nat, j: nat)
    requires Truthy(extensions) && i < |extensions.value| && j < |Bases(wordlist)|
    ensures |Items(wordlist)| + Offset(i, |Bases(wordlist)|) + j < |Candidates(wordlist, extensions, directories)|
    ensures Candidates(wordlist, extensions, directories)[|Items(wordlist)| + Offset(i, |Bases(wordlist)|) + j]
            == Dotted(Bases(wordlist)[j], extensions.value[i])
  {
    FallbackExactlyWithoutTargets(wordlist, extensions, directories);
    var w, e, d, b := Items(wordlist), extensions.value, Items(directories), Bases(wordlist);
    var block := ExtensionBlock(b, e);
    var c := w + block + d;
    assert Candidates(wordlist, extensions, directories) == c;
    ExtensionBlockAt(b, e, i, j);
    assert c[|w| + (Offset(i, |b|) + j)] == block[Offset(i, |b|) + j];
  }

  /**
   * No deduplication: outside the fallback the count is
   * |W| + |E| * (|W| if |W| > 0 else 1) + |D|, duplicates included.
   */
  lemma CandidateCount(wordlist: Option<seq<string>>, extensions: Option<seq<string>>,
                       directories: Option<seq<string>>)
    ensures var w, e, d := |Items(wordlist)|, |Items(extensions)|, |Items(directories)|;
            |Candidates(wordlist, extensions, directories)|
            == if w + e + d == 0 then 16 else w + e * (if w > 0 then w else 1) + d
  {
    FallbackExactlyWithoutTargets(wordlist, extensions, directories);
    var e, b := Items(extensions), Bases(wordlist);
    ExtensionBlockLength(b, e);
    OffsetIsProduct(|e|, |b|);
    if Truthy(wordlist) || Truthy(extensions) || Truthy(directories) {
      assert Candidates(wordlist, extensions, directories)
             == Items(wordlist) + ExtensionBlock(b, e) + Items(directories);
    }
  }

  /** Without a wordlist every extension yields exactly one candidate, `"index." + ext`. */
  lemma IndexWithoutWordlist(wordlist: Option<seq<string>>, extensions: Option<seq<string>>,
                             directories: Option<seq<string>>)
    requires !Truthy(wordlist) && Truthy(extensions)
    ensures |Candidates(wordlist, extensions, directories)| == |extensions.value| + |Items(directories)|
    ensures forall i :: 0 <= i < |extensions.value| ==>
              Candidates(wordlist, extensions, directories)[i] == Dotted(DefaultWord, extensions.value[i])
    ensures forall m :: 0 <= m < |Items(directories)| ==>
              Candidates(wordlist, extensions, directories)[|extensions.value| + m] == Items(directories)[m]
  {
    var e, d, b := extensions.value, Items(directories), [DefaultWord];
    var block := ExtensionBlock(b, e);
    var c := block + d;
    assert Candidates(wordlist, extensions, directories) == c;
    ExtensionBlockLength(b, e);
    OffsetIsProduct(|e|, 1);
    forall i | 0 <= i < |e|
      ensures c[i] == Dotted(DefaultWord, e[i])
    {
      ExtensionBlockAt(b, e, i, 0);
      OffsetIsProduct(i, 1);
      assert c[i] == block[i];
    }
  }

  /** Words `a`, `b`, extension `php` and directory `admin` give exactly `a, b, a.php, b.php, admin`. */
  lemma ExampleMixedTargets()
    ensures Candidates(Some(["a", "b"]), Some(["php"]), Some(["admin"]))
            == ["a", "b", "a.php", "b.php", "admin"]
  {
    assert Dotted("a", "php") == "a.php";
    assert Dotted("b", "php") == "b.php";
    assert WithExtension(["a", "b"], "php") == ["a.php", "b.php"];
    assert ExtensionBlock(["a", "b"], ["php"]) == ["a.php", "b.php"];
  }

  /** Extension `js` with no wordlist gives `index.js`; an empty wordlist counts as none. */
  lemma ExampleIndexJs()
    ensures Candidates(None, Some(["js"]), None) == ["index.js"]
    ensures Candidates(Some([]), Some(["js"]), Some([])) == ["index.js"]
  {
    assert Dotted("index", "js") == "index.js";
    assert WithExtension(["index"], "js") == ["index.js"];
    assert ExtensionBlock(["index"], ["js"]) == ["index.js"];
  }

  /** Duplicate words are requested as often as they occur. */
  lemma ExampleNoDeduplication()
    ensures Candidates(Some(["a", "a"]), None, Some(["a"])) == ["a", "a", "a"]
  {
  }
}
