/** The Hungarian-notation rule: a definition's name carries a type tag as
    a prefix, a suffix, or after an underscore. */
module Hungarian {
  import opened Wrappers
  import opened Syntax
  import opened Issues
  import opened Text
  import Walk

  const DefaultTags: seq<string> :=
    ["str", "int", "num", "bool", "list", "lst", "set", "map", "arr", "array"]

  /** The name carries tag `t`. */
  predicate Tagged(name: string, t: string) {
    HasPrefix(name, t) || HasSuffix(name, t) || Contains(name, "_" + t)
  }

  /** The index of the first tag the name carries. */
  function FirstTag(tags: seq<string>, name: string, from: nat): (r: Option<nat>)
    requires from <= |tags|
    decreases |tags| - from
    ensures r.Some? ==> from <= r.value < |tags| && Tagged(name, tags[r.value])
    ensures r.Some? ==> forall k :: from <= k < r.value ==> !Tagged(name, tags[k])
    ensures r.None? <==> forall k :: from <= k < |tags| ==> !Tagged(name, tags[k])
  {
    if from == |tags| then None
    else if Tagged(name, tags[from]) then Some(from)
    else FirstTag(tags, name, from + 1)
  }

  function Message(tag: string, name: string): string {
    "Avoid Hungarian notation '" + tag + "' in '" + name + "'."
  }

  /** `checkForHungarian`: one issue, naming the first tag in list order the
      name carries, and none when it carries no tag. */
  function TagIssues(tags: seq<string>, d: Walk.Def): (r: seq<Issue>)
    ensures |r| <= 1
    ensures |r| == 1 <==> exists t :: t in tags && Tagged(d.name, t)
    ensures |r| == 1 ==> exists k :: (0 <= k < |tags| && r[0] == TextIssue(Message(tags[k], d.name), d.rng)
      && Tagged(d.name, tags[k]) && forall j :: 0 <= j < k ==> !Tagged(d.name, tags[j]))
  {
    match FirstTag(tags, d.name, 0)
    case None => []
    case Some(k) => [TextIssue(Message(tags[k], d.name), d.rng)]
  }

  function TagCheck(tags: seq<string>): Walk.DefCheck {
    d => TagIssues(tags, d)
  }

  /** The tag list each generation uses: the current one adds the configured
      tags after the defaults, the older one uses the configured tags alone. */
  function Tags(gen: Gen, configured: seq<string>): (r: seq<string>)
    ensures gen == Current ==> |r| == |DefaultTags| + |configured|
    ensures gen == Current ==> r[..|DefaultTags|] == DefaultTags && r[|DefaultTags|..] == configured
    ensures gen == Legacy ==> r == configured
  {
    match gen
    case Current => DefaultTags + configured
    case Legacy => configured
  }

  datatype Config = Config(enabled: Option<bool>, tags: seq<string>)

  /** Both generations start from the default tag list. */
  const DefaultConfig := Config(Some(true), DefaultTags)

  /** `Check`: the current generation honours `enabled`; the older one always
      runs. */
  function Check(gen: Gen, cfg: Config, files: seq<SourceFile>): (r: seq<Issue>)
    ensures gen == Current && !Enabled(cfg.enabled) ==> r == []
  {
    if gen == Current && !Enabled(cfg.enabled) then []
    else Walk.WalkBlocks(files, Walk.AllLintableBlocks, [TagCheck(Tags(gen, cfg.tags))])
  }

  /** Configuring tags never takes a default away in the current generation:
      whatever the older rule flags with the same configuration, and whatever
      the defaults flag, the current rule flags. */
  lemma MergedFlagsMore(configured: seq<string>, d: Walk.Def)
    ensures |TagIssues(Tags(Legacy, configured), d)| <= |TagIssues(Tags(Current, configured), d)|
    ensures |TagIssues(DefaultTags, d)| <= |TagIssues(Tags(Current, configured), d)|
  {
    var all := Tags(Current, configured);
    if exists t :: t in configured && Tagged(d.name, t) {
      var t :| t in configured && Tagged(d.name, t);
      assert t in all by {
        var i :| 0 <= i < |configured| && configured[i] == t;
        assert all[|DefaultTags| + i] == t;
      }
    }
    if exists t :: t in DefaultTags && Tagged(d.name, t) {
      var t :| t in DefaultTags && Tagged(d.name, t);
      assert t in all by {
        var i :| 0 <= i < |DefaultTags| && DefaultTags[i] == t;
        assert all[i] == t;
      }
    }
  }

  /** In the older generation, an empty tag list flags nothing. */
  lemma NoTagsNoIssues(d: Walk.Def)
    ensures TagIssues(Tags(Legacy, []), d) == []
  {
  }

  /** A name with `_` then the tag at index `i` carries the tag. */
  lemma TaggedAfterUnderscore(name: string, t: string, i: nat)
    requires OccursAt(name, "_" + t, i)
    ensures Tagged(name, t)
  {
    ContainsAt(name, "_" + t, i);
  }

  /** The rule's examples: `str_hung` carries `str`, `hung_set_mod` carries
      `set` and `hung_bool_check` carries `bool`. */
  lemma TagExamples()
    ensures Tagged("str_hung", "str")
    ensures Tagged("hung_set_mod", "set")
    ensures Tagged("hung_bool_check", "bool")
  {
    assert "str_hung"[..3] == "str";
    TaggedAfterUnderscore("hung_set_mod", "set", 4);
    TaggedAfterUnderscore("hung_bool_check", "bool", 4);
  }
}
