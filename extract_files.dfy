/**
 * `extractFilesFromAIResponse(response, contextFiles)` (src/extractFiles.ts): the files of a
 * reply. Every code block of the reply is filed under a path: the first path of the context
 * that ends with the extension of the block's tag, or else a fresh name built from the tag and
 * a random token. The first block filed under a path stores its content and a line feed; every
 * later one appends a line feed, its content and a line feed.
 *
 * The context `Record<string, string>` is a sequence of (path, contents) pairs in the order
 * `Object.keys` lists them; only the paths are read. The result record is a map. The random
 * token of the `n`-th block (counting from 0) is `randomId(n)`, supplied by the caller.
 */
module ExtractFiles {
  import opened Text
  import opened CodeBlocks

  // ---------------------------------------------------------------------------------------------
  // The extension table (src/extractFiles.ts:54-72)

  /** The tags the `switch` knows, each with its extension. */
  const ExtensionTable: seq<(string, string)> :=
    [("typescript", ".ts"), ("javascript", ".js"), ("json", ".json"), ("html", ".html"),
     ("css", ".css")]

  /** The tag is one of the `case` labels. */
  predicate KnownType(fileType: string)
  {
    exists j :: 0 <= j < |ExtensionTable| && ExtensionTable[j].0 == fileType
  }

  /** The extension the `switch` picks for a tag. */
  function Extension(fileType: string): string
  {
    match fileType
    case "typescript" => ".ts"
    case "javascript" => ".js"
    case "json" => ".json"
    case "html" => ".html"
    case "css" => ".css"
    case _ => "txt"
  }

  /** A known tag gets its extension from the table, a dot and at least two letters; every
      other tag, the empty one included, gets "txt", with no dot. */
  lemma ExtensionTableAgrees(fileType: string)
    ensures KnownType(fileType) ==>
      exists j :: 0 <= j < |ExtensionTable| && ExtensionTable[j] == (fileType, Extension(fileType))
    ensures !KnownType(fileType) ==> Extension(fileType) == "txt"
    ensures KnownType(fileType) <==> Extension(fileType)[0] == '.'
    ensures |Extension(fileType)| >= 3
  {
    assert ExtensionTable[0] == ("typescript", ".ts") && ExtensionTable[1] == ("javascript", ".js");
    assert ExtensionTable[2] == ("json", ".json") && ExtensionTable[3] == ("html", ".html");
    assert ExtensionTable[4] == ("css", ".css");
  }

  /** Two known tags never share an extension. */
  lemma ExtensionInjective(a: string, b: string)
    requires KnownType(a) && Extension(a) == Extension(b)
    ensures a == b
  {
    ExtensionTableAgrees(a);
    ExtensionTableAgrees(b);
  }

  // ---------------------------------------------------------------------------------------------
  // The key of one block (src/extractFiles.ts:74-81)

  /** `Object.keys(contextFiles)`: the context's paths, in order. */
  function Keys(contextFiles: seq<(string, string)>): (paths: seq<string>)
    ensures |paths| == |contextFiles|
    ensures forall j :: 0 <= j < |contextFiles| ==> paths[j] == contextFiles[j].0
  {
    seq(|contextFiles|, j requires 0 <= j < |contextFiles| => contextFiles[j].0)
  }

  /** The `find` from index `i` on: the first path there that ends with `ext`. */
  function FindFrom(paths: seq<string>, ext: string, i: nat): Option<string>
    decreases |paths| - i
  {
    if |paths| <= i then None
    else if EndsWith(paths[i], ext) then Some(paths[i])
    else FindFrom(paths, ext, i + 1)
  }

  /** `Object.keys(contextFiles).find(...)`: the first path that ends with `ext`, if any. */
  function MatchingContextFile(paths: seq<string>, ext: string): Option<string>
  {
    FindFrom(paths, ext, 0)
  }

  /** The `find` from `i` gives the first path at or after `i` that ends with `ext`, and
      nothing exactly when no path there does. */
  lemma {:induction false} FindFromIsFirst(paths: seq<string>, ext: string, i: nat)
    ensures var r := FindFrom(paths, ext, i);
      r.Some? ==> exists j :: i <= j < |paths| && paths[j] == r.value && EndsWith(r.value, ext)
                              && (forall m :: i <= m < j ==> !EndsWith(paths[m], ext))
    ensures FindFrom(paths, ext, i).None? <==> forall j :: i <= j < |paths| ==> !EndsWith(paths[j], ext)
    decreases |paths| - i
  {
    if i < |paths| && !EndsWith(paths[i], ext) {
      FindFromIsFirst(paths, ext, i + 1);
    }
  }

  /** The match is the first path that ends with `ext`; there is none exactly when no path
      ends with `ext`. */
  lemma MatchingContextFileIsFirst(paths: seq<string>, ext: string)
    ensures var r := MatchingContextFile(paths, ext);
      r.Some? ==> exists j :: 0 <= j < |paths| && paths[j] == r.value && EndsWith(r.value, ext)
                              && (forall m :: 0 <= m < j ==> !EndsWith(paths[m], ext))
    ensures MatchingContextFile(paths, ext).None? <==> forall j :: 0 <= j < |paths| ==> !EndsWith(paths[j], ext)
  {
    FindFromIsFirst(paths, ext, 0);
  }

  /** The name made up for a block that matches no context path: `fileType + randomId() + "." +
      fileExtension`. */
  function NewFilename(fileType: string, token: string): string
  {
    fileType + token + "." + Extension(fileType)
  }

  /** The made-up name ends with the extension; a known tag's name has two dots before the
      extension's letters, any other tag's name ends in ".txt". */
  lemma NewFilenameShape(fileType: string, token: string)
    ensures EndsWith(NewFilename(fileType, token), Extension(fileType))
    ensures KnownType(fileType) ==>
      NewFilename(fileType, token) == fileType + token + ".." + Extension(fileType)[1..]
    ensures !KnownType(fileType) ==> NewFilename(fileType, token) == fileType + token + ".txt"
  {
    var ext := Extension(fileType);
    var name := NewFilename(fileType, token);
    ExtensionTableAgrees(fileType);
    assert name[|name| - |ext|..] == ext;
    if KnownType(fileType) {
      assert ext == [ext[0]] + ext[1..];
      assert name == fileType + token + "." + ([ext[0]] + ext[1..]);
    }
  }

  /** The path the block is filed under, given the token drawn for it. */
  function KeyFor(paths: seq<string>, block: CodeBlock, token: string): string
  {
    match MatchingContextFile(paths, Extension(block.fileType))
    case Some(p) => p
    case None => NewFilename(block.fileType, token)
  }

  /** The key ends with the block's extension, and it is a context path or the made-up name. */
  lemma KeyForShape(paths: seq<string>, block: CodeBlock, token: string)
    ensures EndsWith(KeyFor(paths, block, token), Extension(block.fileType))
    ensures KeyFor(paths, block, token) in paths
            || KeyFor(paths, block, token) == NewFilename(block.fileType, token)
  {
    MatchingContextFileIsFirst(paths, Extension(block.fileType));
    NewFilenameShape(block.fileType, token);
  }

  /** A context path ending with the block's extension wins over the made-up name, and the
      first such path wins over the later ones. */
  lemma KeyForPrefersContext(paths: seq<string>, block: CodeBlock, token: string, j: nat)
    requires j < |paths| && EndsWith(paths[j], Extension(block.fileType))
    requires forall i :: 0 <= i < j ==> !EndsWith(paths[i], Extension(block.fileType))
    ensures KeyFor(paths, block, token) == paths[j]
  {
    var ext := Extension(block.fileType);
    var r := MatchingContextFile(paths, ext);
    MatchingContextFileIsFirst(paths, ext);
    var k :| 0 <= k < |paths| && paths[k] == r.value && EndsWith(r.value, ext)
             && (forall i :: 0 <= i < k ==> !EndsWith(paths[i], ext));
    var pk, pj := paths[k], paths[j];
    assert k >= j;
    assert j >= k;
  }

  /** With no context path ending with the block's extension, the made-up name. */
  lemma KeyForFallsBack(paths: seq<string>, block: CodeBlock, token: string)
    requires forall j :: 0 <= j < |paths| ==> !EndsWith(paths[j], Extension(block.fileType))
    ensures KeyFor(paths, block, token) == NewFilename(block.fileType, token)
  {
    MatchingContextFileIsFirst(paths, Extension(block.fileType));
  }

  // ---------------------------------------------------------------------------------------------
  // Filing the blocks (src/extractFiles.ts:49-51, 82-87)

  /** One assignment of src/extractFiles.ts:82-84. The test is JavaScript truthiness: a
      missing key and an empty value both count as absent. */
  function Store(files: map<string, string>, key: string, content: string): (r: map<string, string>)
    ensures r.Keys == files.Keys + {key}
    ensures forall k :: k in files && k != key ==> r[k] == files[k]
    ensures EndsWith(r[key], content + "\n")
  {
    var r := if key in files && files[key] != "" then files[key := files[key] + "\n" + content + "\n"]
             else files[key := content + "\n"];
    assert r[key][|r[key]| - |content + "\n"|..] == content + "\n";
    r
  }

  /** The path and content each block is filed with, the `n`-th block drawing the token
      `randomId(n)`. */
  function Filings(blocks: seq<CodeBlock>, paths: seq<string>, randomId: nat -> string): seq<(string, string)>
  {
    if blocks == [] then []
    else
      var n := |blocks| - 1;
      Filings(blocks[..n], paths, randomId) + [(KeyFor(paths, blocks[n], randomId(n)), blocks[n].content)]
  }

  /** One filing per block, the `n`-th with that block's key and content. */
  lemma {:induction false} FilingsAt(blocks: seq<CodeBlock>, paths: seq<string>, randomId: nat -> string)
    ensures |Filings(blocks, paths, randomId)| == |blocks|
    ensures forall n :: 0 <= n < |blocks| ==>
      Filings(blocks, paths, randomId)[n] == (KeyFor(paths, blocks[n], randomId(n)), blocks[n].content)
  {
    if blocks != [] {
      var init := blocks[..|blocks| - 1];
      FilingsAt(init, paths, randomId);
      forall n | 0 <= n < |init| ensures blocks[n] == init[n] { }
    }
  }

  /** Filing one more block. */
  lemma FilingsSnoc(blocks: seq<CodeBlock>, paths: seq<string>, randomId: nat -> string, n: nat)
    requires n < |blocks|
    ensures Filings(blocks[..n + 1], paths, randomId)
      == Filings(blocks[..n], paths, randomId) + [(KeyFor(paths, blocks[n], randomId(n)), blocks[n].content)]
  {
    assert blocks[..n + 1][..n] == blocks[..n];
  }

  /** The files after storing the filings `fs` in order, starting from no file. */
  function StoreAll(fs: seq<(string, string)>): map<string, string>
  {
    if fs == [] then map[] else Store(StoreAll(fs[..|fs| - 1]), fs[|fs| - 1].0, fs[|fs| - 1].1)
  }

  /** What `extractFilesFromAIResponse(response, contextFiles)` returns. */
  function Files(response: string, contextFiles: seq<(string, string)>, randomId: nat -> string): map<string, string>
  {
    StoreAll(Filings(Blocks(response), Keys(contextFiles), randomId))
  }

  /** src/extractFiles.ts:45-88: the loop over the blocks, updating `fileContents` in place. */
  method ExtractFilesFromAIResponse(response: string, contextFiles: seq<(string, string)>,
                                    randomId: nat -> string)
      returns (fileContents: map<string, string>)
    ensures fileContents == Files(response, contextFiles, randomId)
  {
    fileContents := map[];
    var blocks := ExtractCodeBlocks(response);
    var n: nat := 0;
    while n < |blocks|
      invariant n <= |blocks|
      invariant fileContents == StoreAll(Filings(blocks[..n], Keys(contextFiles), randomId))
    {
      var block := blocks[n];
      var fileExtension := Extension(block.fileType);
      var newFilename := block.fileType + randomId(n) + "." + fileExtension;
      var matchingFilePath := MatchingContextFile(Keys(contextFiles), fileExtension);
      var key := if matchingFilePath.Some? then matchingFilePath.value else newFilename;
      KeyForIs(Keys(contextFiles), block, randomId(n), matchingFilePath, newFilename);
      FilingsSnoc(blocks, Keys(contextFiles), randomId, n);
      StoreAllSnoc(Filings(blocks[..n], Keys(contextFiles), randomId), key, block.content);
      if key in fileContents && fileContents[key] != "" {
        fileContents := fileContents[key := fileContents[key] + "\n" + block.content + "\n"];
      } else {
        fileContents := fileContents[key := block.content + "\n"];
      }
      n := n + 1;
    }
    assert blocks[..n] == blocks;
  }

  /** The key the loop body computes is the block's key. */
  lemma KeyForIs(paths: seq<string>, block: CodeBlock, token: string, matching: Option<string>,
                 newFilename: string)
    requires matching == MatchingContextFile(paths, Extension(block.fileType))
    requires newFilename == block.fileType + token + "." + Extension(block.fileType)
    ensures KeyFor(paths, block, token) == if matching.Some? then matching.value else newFilename
  {
  }

  /** Storing one more filing. */
  lemma StoreAllSnoc(fs: seq<(string, string)>, key: string, content: string)
    ensures StoreAll(fs + [(key, content)]) == Store(StoreAll(fs), key, content)
  {
    assert (fs + [(key, content)])[..|fs|] == fs;
  }

  // ---------------------------------------------------------------------------------------------
  // What the files hold

  /** The contents filed under `key`, in order. */
  function ContentsFor(fs: seq<(string, string)>, key: string): seq<string>
  {
    if fs == [] then []
    else ContentsFor(fs[..|fs| - 1], key) + (if fs[|fs| - 1].0 == key then [fs[|fs| - 1].1] else [])
  }

  /** A file made of the contents `cs`: the first followed by a line feed, every later one
      preceded and followed by a line feed. */
  function Collected(cs: seq<string>): string
    requires cs != []
  {
    if |cs| == 1 then cs[0] + "\n" else Collected(cs[..|cs| - 1]) + "\n" + cs[|cs| - 1] + "\n"
  }

  /** A path is a key of the files exactly when something is filed under it, and its file
      collects the contents filed under it, in order. */
  lemma {:induction false} StoreAllContents(fs: seq<(string, string)>, key: string)
    ensures key in StoreAll(fs) <==> ContentsFor(fs, key) != []
    ensures key in StoreAll(fs) ==> StoreAll(fs)[key] == Collected(ContentsFor(fs, key))
  {
    if fs != [] {
      var init := fs[..|fs| - 1];
      var last := fs[|fs| - 1];
      StoreAllContents(init, key);
      StoreCollects(StoreAll(init), last.0, last.1, key, ContentsFor(init, key), ContentsFor(fs, key));
    }
  }

  /** One store keeps a file equal to the collection of the contents filed under its path:
      `after` is what is filed under `key` once `c` is stored under `k`. */
  lemma StoreCollects(files: map<string, string>, k: string, c: string, key: string,
                      before: seq<string>, after: seq<string>)
    requires key in files <==> before != []
    requires key in files ==> files[key] == Collected(before)
    requires after == before + (if k == key then [c] else [])
    ensures key in Store(files, k, c) <==> after != []
    ensures key in Store(files, k, c) ==> Store(files, k, c)[key] == Collected(after)
  {
    if k == key && before != [] {
      CollectedNonEmpty(before);
      CollectedSnoc(before, c);
    } else if k != key {
      assert after == before;
    }
  }

  /** One more content appended to a collected file. */
  lemma CollectedSnoc(cs: seq<string>, c: string)
    requires cs != []
    ensures Collected(cs + [c]) == Collected(cs) + "\n" + c + "\n"
  {
    assert (cs + [c])[..|cs|] == cs;
  }

  /** A collected file is never empty, so the truthiness test of src/extractFiles.ts:82 is a
      test for the key. */
  lemma CollectedNonEmpty(cs: seq<string>)
    requires cs != []
    ensures Collected(cs) != "" && EndsWith(Collected(cs), "\n")
  {
  }

  /** The paths of the filings `fs`. */
  function PathsOf(fs: seq<(string, string)>): set<string>
  {
    if fs == [] then {} else PathsOf(fs[..|fs| - 1]) + {fs[|fs| - 1].0}
  }

  /** There are at most as many paths as filings, and they are the paths filed under. */
  lemma PathsOfBounds(fs: seq<(string, string)>)
    ensures |PathsOf(fs)| <= |fs|
    ensures forall k :: k in PathsOf(fs) <==> exists j :: 0 <= j < |fs| && fs[j].0 == k
  {
    PathsOfSize(fs);
    PathsOfMembers(fs);
  }

  /** Each filing adds at most one path. */
  lemma {:induction false} PathsOfSize(fs: seq<(string, string)>)
    ensures |PathsOf(fs)| <= |fs|
  {
    if fs != [] {
      var init := fs[..|fs| - 1];
      var key := fs[|fs| - 1].0;
      PathsOfSize(init);
      var before := PathsOf(init);
      assert |before + {key}| <= |before| + 1 by {
        if key in before {
          assert before + {key} == before;
        }
      }
    }
  }

  /** The paths are exactly the paths filed under. */
  lemma {:induction false} PathsOfMembers(fs: seq<(string, string)>)
    ensures forall k :: k in PathsOf(fs) <==> exists j :: 0 <= j < |fs| && fs[j].0 == k
  {
    if fs != [] {
      var init := fs[..|fs| - 1];
      PathsOfMembers(init);
      forall k ensures k in PathsOf(fs) <==> exists j :: 0 <= j < |fs| && fs[j].0 == k {
        if exists j :: 0 <= j < |fs| && fs[j].0 == k {
          var j :| 0 <= j < |fs| && fs[j].0 == k;
          if j < |init| {
            assert init[j] == fs[j];
          }
        }
        if exists j :: 0 <= j < |init| && init[j].0 == k {
          var j :| 0 <= j < |init| && init[j].0 == k;
          assert fs[j] == init[j];
        }
      }
    }
  }

  /** The keys of the files are the paths filed under. */
  lemma {:induction false} StoreAllKeys(fs: seq<(string, string)>)
    ensures StoreAll(fs).Keys == PathsOf(fs)
  {
    if fs != [] {
      StoreAllKeys(fs[..|fs| - 1]);
    }
  }

  /** Every file ends with a line feed. */
  lemma FilesEndWithLineFeed(response: string, contextFiles: seq<(string, string)>,
                             randomId: nat -> string, k: string)
    requires k in Files(response, contextFiles, randomId)
    ensures EndsWith(Files(response, contextFiles, randomId)[k], "\n")
  {
    var fs := Filings(Blocks(response), Keys(contextFiles), randomId);
    StoreAllContents(fs, k);
    CollectedNonEmpty(ContentsFor(fs, k));
  }

  /** There are at most as many files as blocks, and every key is the path of some block,
      ending with that block's extension. */
  lemma FilesKeys(response: string, contextFiles: seq<(string, string)>, randomId: nat -> string)
    ensures |Files(response, contextFiles, randomId).Keys| <= |Blocks(response)|
    ensures forall k :: k in Files(response, contextFiles, randomId) <==>
      exists n :: 0 <= n < |Blocks(response)| && KeyFor(Keys(contextFiles), Blocks(response)[n], randomId(n)) == k
  {
    var blocks, paths := Blocks(response), Keys(contextFiles);
    var fs := Filings(blocks, paths, randomId);
    StoreAllKeys(fs);
    PathsOfBounds(fs);
    FilingsAt(blocks, paths, randomId);
    forall k ensures k in StoreAll(fs) <==> exists n :: 0 <= n < |blocks| && KeyFor(paths, blocks[n], randomId(n)) == k {
      if k in StoreAll(fs) {
        var j :| 0 <= j < |fs| && fs[j].0 == k;
        assert KeyFor(paths, blocks[j], randomId(j)) == k;
      }
      if exists n :: 0 <= n < |blocks| && KeyFor(paths, blocks[n], randomId(n)) == k {
        var n :| 0 <= n < |blocks| && KeyFor(paths, blocks[n], randomId(n)) == k;
        assert fs[n].0 == k;
      }
    }
  }

  /** Every key ends with the extension of a block filed under it. */
  lemma FilesKeysEndWithExtension(response: string, contextFiles: seq<(string, string)>,
                                  randomId: nat -> string, k: string)
    requires k in Files(response, contextFiles, randomId)
    ensures exists n :: 0 <= n < |Blocks(response)| && EndsWith(k, Extension(Blocks(response)[n].fileType))
  {
    FilesKeys(response, contextFiles, randomId);
    var n :| 0 <= n < |Blocks(response)| && KeyFor(Keys(contextFiles), Blocks(response)[n], randomId(n)) == k;
    KeyForShape(Keys(contextFiles), Blocks(response)[n], randomId(n));
  }

  /** The contents of the blocks filed under `key`, in block order. */
  function BlockContentsFor(blocks: seq<CodeBlock>, paths: seq<string>, randomId: nat -> string,
                            key: string): seq<string>
  {
    if blocks == [] then []
    else
      var n := |blocks| - 1;
      BlockContentsFor(blocks[..n], paths, randomId, key)
        + (if KeyFor(paths, blocks[n], randomId(n)) == key then [blocks[n].content] else [])
  }

  /** The contents filed under `key` are those of the blocks whose key it is. */
  lemma {:induction false} ContentsForFilings(blocks: seq<CodeBlock>, paths: seq<string>,
                                              randomId: nat -> string, key: string)
    ensures ContentsFor(Filings(blocks, paths, randomId), key) == BlockContentsFor(blocks, paths, randomId, key)
  {
    if blocks != [] {
      var n := |blocks| - 1;
      var fs := Filings(blocks, paths, randomId);
      ContentsForFilings(blocks[..n], paths, randomId, key);
      assert fs[..|fs| - 1] == Filings(blocks[..n], paths, randomId);
    }
  }

  /** A path is a key of the result exactly when some block is filed under it, and its file
      collects the contents of the blocks filed under it, in block order. */
  lemma FilesContents(response: string, contextFiles: seq<(string, string)>,
                      randomId: nat -> string, k: string)
    ensures k in Files(response, contextFiles, randomId) <==>
      BlockContentsFor(Blocks(response), Keys(contextFiles), randomId, k) != []
    ensures k in Files(response, contextFiles, randomId) ==>
      Files(response, contextFiles, randomId)[k] ==
        Collected(BlockContentsFor(Blocks(response), Keys(contextFiles), randomId, k))
  {
    var fs := Filings(Blocks(response), Keys(contextFiles), randomId);
    StoreAllContents(fs, k);
    ContentsForFilings(Blocks(response), Keys(contextFiles), randomId, k);
  }

  /** A reply without a backtick has no blocks, so no files. */
  lemma NoBlocksNoFiles(response: string, contextFiles: seq<(string, string)>, randomId: nat -> string)
    requires forall x :: 0 <= x < |response| ==> response[x] != '`'
    ensures Files(response, contextFiles, randomId) == map[]
  {
    NoBacktickNoBlocks(response);
  }

  /** Only the paths of the context are read, not their contents. */
  lemma OnlyPathsMatter(response: string, a: seq<(string, string)>, b: seq<(string, string)>,
                        randomId: nat -> string)
    requires |a| == |b| && forall j :: 0 <= j < |a| ==> a[j].0 == b[j].0
    ensures Files(response, a, randomId) == Files(response, b, randomId)
  {
    assert Keys(a) == Keys(b);
  }
}
