/** The meta rule's dispatch: every top-level block of every file gets the
    count-guard check when it has `count`, and a `module` block also gets
    the module-source check unless that is switched off. */
module Meta {
  import opened Wrappers
  import opened Syntax
  import opened Issues
  import opened Seqs
  import MetaCount
  import MetaSource

  /** `source_version` unset counts as on; it defaults to on. */
  datatype Config = Config(sourceVersion: Option<bool>)

  const DefaultConfig := Config(Some(true))

  /** Whether a generation runs the module-source check on a block: only the
      current one does, and only when it is on. */
  predicate SourceChecked(gen: Gen, cfg: Config, b: Block) {
    gen == Current && b.kind == "module" && Enabled(cfg.sourceVersion)
  }

  /** The issues of one top-level block: the count guard's first, then the
      module source's. */
  function BlockIssues(gen: Gen, cfg: Config, b: Block): (r: seq<Issue>)
    ensures |r| <= 2
    ensures Lookup(b.body.attributes, "count").None? && !SourceChecked(gen, cfg, b) ==> r == []
    ensures !SourceChecked(gen, cfg, b) ==> |r| <= 1
  {
    var count := Lookup(b.body.attributes, "count");
    (if count.Some? then MetaCount.CountIssues(gen, count.value) else [])
    + (if SourceChecked(gen, cfg, b) then MetaSource.SourceIssues(b.body.attributes, b.rng) else [])
  }

  /** The issues of one file: its top-level blocks in order; a file that is
      not native syntax has none. */
  function FileIssues(gen: Gen, cfg: Config, f: SourceFile): (r: seq<Issue>)
    ensures f.body.None? ==> r == []
  {
    match f.body
    case None => []
    case Some(body) => Concat(PerBlock(gen, cfg, body.blocks))
  }

  function PerBlock(gen: Gen, cfg: Config, blocks: seq<Block>): (r: seq<seq<Issue>>)
    ensures |r| == |blocks| && forall j :: 0 <= j < |blocks| ==> r[j] == BlockIssues(gen, cfg, blocks[j])
  {
    seq(|blocks|, j requires 0 <= j < |blocks| => BlockIssues(gen, cfg, blocks[j]))
  }

  function PerFile(gen: Gen, cfg: Config, files: seq<SourceFile>): (r: seq<seq<Issue>>)
    ensures |r| == |files| && forall i :: 0 <= i < |files| ==> r[i] == FileIssues(gen, cfg, files[i])
  {
    seq(|files|, i requires 0 <= i < |files| => FileIssues(gen, cfg, files[i]))
  }

  /** Block `j` of file `i` is a top-level block. */
  predicate TopLevel(files: seq<SourceFile>, i: int, j: int) {
    0 <= i < |files| && files[i].body.Some? && 0 <= j < |files[i].body.value.blocks|
  }

  /** `Check`: every file in the order given. */
  function Check(gen: Gen, cfg: Config, files: seq<SourceFile>): (r: seq<Issue>)
  {
    Concat(PerFile(gen, cfg, files))
  }

  /** An issue of a file comes from one of its top-level blocks. */
  lemma FileFromBlocks(gen: Gen, cfg: Config, f: SourceFile, x: Issue)
    requires f.body.Some?
    ensures x in FileIssues(gen, cfg, f) <==>
      exists j :: 0 <= j < |f.body.value.blocks| && x in BlockIssues(gen, cfg, f.body.value.blocks[j])
  {
    var blocks := f.body.value.blocks;
    var perBlock := PerBlock(gen, cfg, blocks);
    ConcatMember(perBlock, x);
    if x in FileIssues(gen, cfg, f) {
      var j :| 0 <= j < |perBlock| && x in perBlock[j];
      assert x in BlockIssues(gen, cfg, blocks[j]);
    }
    if exists j :: 0 <= j < |blocks| && x in BlockIssues(gen, cfg, blocks[j]) {
      var j :| 0 <= j < |blocks| && x in BlockIssues(gen, cfg, blocks[j]);
      assert x in perBlock[j];
    }
  }

  /** An issue is reported exactly when some top-level block of some file
      draws it; nested blocks never contribute. */
  lemma CheckFromTopLevel(gen: Gen, cfg: Config, files: seq<SourceFile>, x: Issue)
    ensures x in Check(gen, cfg, files) <==>
      exists i, j :: TopLevel(files, i, j) && x in BlockIssues(gen, cfg, files[i].body.value.blocks[j])
  {
    var perFile := PerFile(gen, cfg, files);
    ConcatMember(perFile, x);
    if x in Check(gen, cfg, files) {
      var i :| 0 <= i < |perFile| && x in perFile[i];
      FileFromBlocks(gen, cfg, files[i], x);
      var j :| 0 <= j < |files[i].body.value.blocks| && x in BlockIssues(gen, cfg, files[i].body.value.blocks[j]);
      assert TopLevel(files, i, j);
    }
    if exists i, j :: TopLevel(files, i, j) && x in BlockIssues(gen, cfg, files[i].body.value.blocks[j]) {
      var i, j :| TopLevel(files, i, j) && x in BlockIssues(gen, cfg, files[i].body.value.blocks[j]);
      FileFromBlocks(gen, cfg, files[i], x);
      assert x in perFile[i];
    }
  }

  /** What a block holds below its attributes is never looked at. */
  lemma NestedIgnored(gen: Gen, cfg: Config, b: Block, nested: seq<Block>)
    ensures BlockIssues(gen, cfg, b.(body := b.body.(blocks := nested))) == BlockIssues(gen, cfg, b)
  {
  }

  /** The older rule checks only `count`, whatever `source_version` says. */
  lemma LegacyCountOnly(cfg: Config, b: Block)
    ensures BlockIssues(Legacy, cfg, b) == BlockIssues(Legacy, Config(Some(false)), b)
    ensures Lookup(b.body.attributes, "count").None? ==> BlockIssues(Legacy, cfg, b) == []
  {
  }
}
