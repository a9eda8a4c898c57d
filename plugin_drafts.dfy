/** The drafts plugin: computed `permalink` and `eleventyExcludeFromCollections` that hide
    undated pages unless `BUILD_DRAFTS` is truthy, and an `eleventy.before` handler that sets
    `BUILD_DRAFTS` from the run mode and logs the choice once. */
module PluginDrafts {
  import opened Js
  import opened Items

  /** The guard both computed values share: an undated page while drafts are not built. */
  predicate DraftHidden(buildDrafts: Option<string>, data: PageData) {
    !Truthy(data.date) && !TruthyStr(buildDrafts)
  }

  /** Computed `permalink`: `false` for a hidden draft, otherwise the page's own permalink. */
  function GetPermalink(buildDrafts: Option<string>, data: PageData): (r: Value)
    ensures !Truthy(data.date) && !TruthyStr(buildDrafts) ==> r == Bool(false)
    ensures Truthy(data.date) || TruthyStr(buildDrafts) ==> r == data.permalink
  {
    if DraftHidden(buildDrafts, data) then Bool(false) else data.permalink
  }

  /** Computed `eleventyExcludeFromCollections`: `true` for a hidden draft, otherwise the page's own value. */
  function GetExcludeFromCollections(buildDrafts: Option<string>, data: PageData): (r: Value)
    ensures !Truthy(data.date) && !TruthyStr(buildDrafts) ==> r == Bool(true)
    ensures Truthy(data.date) || TruthyStr(buildDrafts) ==> r == data.eleventyExcludeFromCollections
  {
    if DraftHidden(buildDrafts, data) then Bool(true) else data.eleventyExcludeFromCollections
  }

  /** For a page that does not itself set `permalink: false` or exclude itself, the permalink
      is forced to `false` exactly when the exclusion is forced to `true`. */
  lemma PermalinkForcedIffExcluded(buildDrafts: Option<string>, data: PageData)
    requires data.permalink != Bool(false) && data.eleventyExcludeFromCollections != Bool(true)
    ensures GetPermalink(buildDrafts, data) == Bool(false)
        <==> GetExcludeFromCollections(buildDrafts, data) == Bool(true)
    ensures GetPermalink(buildDrafts, data) == Bool(false) <==> DraftHidden(buildDrafts, data)
  {
  }

  const LogPrefix: string := "[ooloth/michaeluloth.com] "

  /** The line the handler logs. */
  function DraftsMessage(runMode: string): (r: string)
    ensures r == LogPrefix + "Excluding drafts." <==> runMode == "build"
    ensures r == LogPrefix + "Including drafts." <==> runMode != "build"
  {
    var excluding, including := LogPrefix + "Excluding drafts.", LogPrefix + "Including drafts.";
    assert excluding[|LogPrefix|] != including[|LogPrefix|];
    if runMode == "build" then excluding else including
  }

  /** `BUILD_DRAFTS` after the handler as written: `runMode === 'build' ? false : true`,
      stored by Node as the string "false" or "true". */
  function DraftsFlag(runMode: string): (r: Option<string>)
    ensures r == Some(if runMode == "build" then "false" else "true")
    ensures TruthyStr(r)
  {
    EnvAssignBool(runMode != "build")
  }

  /** `BUILD_DRAFTS` as the comment above the assignment describes it: unset in builds,
      set during watch and serve. */
  function DraftsFlagIntended(runMode: string): (r: Option<string>)
    ensures TruthyStr(r) <==> runMode != "build"
  {
    if runMode == "build" then None else Some("true")
  }

  /** As written, the handler never lets a draft be hidden: even in build mode an undated page
      keeps its permalink and its own collection setting. */
  lemma AsWrittenBuildShowsDrafts(runMode: string, data: PageData)
    ensures GetPermalink(DraftsFlag(runMode), data) == data.permalink
    ensures GetExcludeFromCollections(DraftsFlag(runMode), data) == data.eleventyExcludeFromCollections
  {
  }

  /** A concrete case: in build mode an undated page with permalink "/draft/" is published. */
  lemma AsWrittenBuildPublishesUndatedPage(data: PageData)
    requires data.date == Undefined && data.permalink == Str("/draft/")
    ensures GetPermalink(DraftsFlag("build"), data) == Str("/draft/")
  {
  }

  /** With the intended flag, a page is hidden exactly in build mode and only when undated. */
  lemma IntendedBuildHidesDrafts(runMode: string, data: PageData)
    ensures runMode == "build" && !Truthy(data.date) ==>
      GetPermalink(DraftsFlagIntended(runMode), data) == Bool(false)
      && GetExcludeFromCollections(DraftsFlagIntended(runMode), data) == Bool(true)
    ensures runMode != "build" || Truthy(data.date) ==>
      GetPermalink(DraftsFlagIntended(runMode), data) == data.permalink
      && GetExcludeFromCollections(DraftsFlagIntended(runMode), data) == data.eleventyExcludeFromCollections
  {
  }

  /** The plugin's state: the `BUILD_DRAFTS` environment variable, the `logged` latch the
      handler closes over, and the lines it has written to the console. */
  class DraftsPlugin {
    var buildDrafts: Option<string>
    var logged: bool
    var console: seq<string>

    /** The latch is closed exactly when the one message has been logged. */
    ghost predicate Valid()
      reads this
    {
      |console| <= 1 && (logged <==> |console| == 1)
    }

    /** Registering the plugin: `logged` starts `false`; the environment is as found. */
    constructor (env: Option<string>)
      ensures Valid()
      ensures buildDrafts == env && !logged && console == []
    {
      buildDrafts := env;
      logged := false;
      console := [];
    }

    /** The `eleventy.before` handler as written. */
    method OnBefore(runMode: string)
      requires Valid()
      modifies this
      ensures Valid()
      ensures buildDrafts == DraftsFlag(runMode)
      ensures logged
      ensures console == if old(logged) then old(console) else old(console) + [DraftsMessage(runMode)]
    {
      buildDrafts := EnvAssignBool(runMode != "build");
      if !logged {
        console := console + [DraftsMessage(runMode)];
        logged := true;
      }
    }

    /** The handler with the flag unset, rather than set to "false", in build mode. */
    method OnBeforeIntended(runMode: string)
      requires Valid()
      modifies this
      ensures Valid()
      ensures buildDrafts == DraftsFlagIntended(runMode)
      ensures logged
      ensures console == if old(logged) then old(console) else old(console) + [DraftsMessage(runMode)]
    {
      buildDrafts := DraftsFlagIntended(runMode);
      if !logged {
        console := console + [DraftsMessage(runMode)];
        logged := true;
      }
    }
  }
}
