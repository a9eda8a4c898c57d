/** The private-notes plugin: computed `permalink` and `eleventyExcludeFromCollections` that
    hide every page it applies to unless `BUILD_PRIVATE` is truthy, and an `eleventy.before`
    handler that sets `BUILD_PRIVATE` from whether the run is local and logs the choice once. */
module PluginPrivate {
  import opened Js
  import opened Items

  /** Computed `permalink`: `false` while private notes are not built, otherwise the page's own. */
  function GetPermalink(buildPrivate: Option<string>, data: PageData): (r: Value)
    ensures !TruthyStr(buildPrivate) ==> r == Bool(false)
    ensures TruthyStr(buildPrivate) ==> r == data.permalink
  {
    if !TruthyStr(buildPrivate) then Bool(false) else data.permalink
  }

  /** Computed `eleventyExcludeFromCollections`: `true` while private notes are not built. */
  function GetExcludeFromCollections(buildPrivate: Option<string>, data: PageData): (r: Value)
    ensures !TruthyStr(buildPrivate) ==> r == Bool(true)
    ensures TruthyStr(buildPrivate) ==> r == data.eleventyExcludeFromCollections
  {
    if !TruthyStr(buildPrivate) then Bool(true) else data.eleventyExcludeFromCollections
  }

  /** Unlike the drafts rule, the page's date plays no part. */
  lemma IgnoresDate(buildPrivate: Option<string>, data: PageData, date: Value)
    ensures GetPermalink(buildPrivate, data.(date := date)) == GetPermalink(buildPrivate, data)
    ensures GetExcludeFromCollections(buildPrivate, data.(date := date))
         == GetExcludeFromCollections(buildPrivate, data)
  {
  }

  /** `runMode === 'serve' || runMode === 'watch'`; a build, or any other mode, is not local. */
  function IsLocalBuild(runMode: string): (r: bool)
    ensures r <==> runMode in {"serve", "watch"}
    ensures runMode == "build" ==> !r
  {
    runMode == "serve" || runMode == "watch"
  }

  const LogPrefix: string := "[ooloth/michaeluloth.com] "

  /** The line the handler logs. */
  function PrivateMessage(runMode: string): (r: string)
    ensures r == LogPrefix + "Excluding private notes..." <==> !IsLocalBuild(runMode)
    ensures r == LogPrefix + "Including private notes..." <==> IsLocalBuild(runMode)
  {
    var including, excluding := LogPrefix + "Including private notes...", LogPrefix + "Excluding private notes...";
    assert including[|LogPrefix|] != excluding[|LogPrefix|];
    if IsLocalBuild(runMode) then including else excluding
  }

  /** `BUILD_PRIVATE` after the handler as written: `isLocalBuild ? true : false`, stored by
      Node as the string "true" or "false". */
  function PrivateFlag(runMode: string): (r: Option<string>)
    ensures r == Some(if runMode == "serve" || runMode == "watch" then "true" else "false")
    ensures TruthyStr(r)
  {
    EnvAssignBool(IsLocalBuild(runMode))
  }

  /** `BUILD_PRIVATE` as the comments describe it: set only for local (watch or serve) runs. */
  function PrivateFlagIntended(runMode: string): (r: Option<string>)
    ensures TruthyStr(r) <==> runMode == "serve" || runMode == "watch"
  {
    if IsLocalBuild(runMode) then Some("true") else None
  }

  /** As written, no run mode hides anything: a production build keeps every permalink. */
  lemma AsWrittenBuildShowsPrivate(runMode: string, data: PageData)
    ensures GetPermalink(PrivateFlag(runMode), data) == data.permalink
    ensures GetExcludeFromCollections(PrivateFlag(runMode), data) == data.eleventyExcludeFromCollections
  {
  }

  /** A concrete case: in build mode a page with permalink "/private/" is published. */
  lemma AsWrittenBuildPublishesPrivatePage(data: PageData)
    requires data.permalink == Str("/private/")
    ensures GetPermalink(PrivateFlag("build"), data) == Str("/private/")
  {
  }

  /** With the intended flag, pages are hidden exactly in non-local runs. */
  lemma IntendedBuildHidesPrivate(runMode: string, data: PageData)
    ensures !(runMode == "serve" || runMode == "watch") ==>
      GetPermalink(PrivateFlagIntended(runMode), data) == Bool(false)
      && GetExcludeFromCollections(PrivateFlagIntended(runMode), data) == Bool(true)
    ensures runMode == "serve" || runMode == "watch" ==>
      GetPermalink(PrivateFlagIntended(runMode), data) == data.permalink
      && GetExcludeFromCollections(PrivateFlagIntended(runMode), data) == data.eleventyExcludeFromCollections
  {
  }

  /** The plugin's state: the `BUILD_PRIVATE` environment variable, the `loggedPrivate` latch
      the handler closes over, and the lines it has written to the console. */
  class PrivatePlugin {
    var buildPrivate: Option<string>
    var loggedPrivate: bool
    var console: seq<string>

    /** The latch is closed exactly when the one message has been logged. */
    ghost predicate Valid()
      reads this
    {
      |console| <= 1 && (loggedPrivate <==> |console| == 1)
    }

    /** Registering the plugin: `loggedPrivate` starts `false`; the environment is as found. */
    constructor (env: Option<string>)
      ensures Valid()
      ensures buildPrivate == env && !loggedPrivate && console == []
    {
      buildPrivate := env;
      loggedPrivate := false;
      console := [];
    }

    /** The `eleventy.before` handler as written: the flag is reassigned on every event. */
    method OnBefore(runMode: string)
      requires Valid()
      modifies this
      ensures Valid()
      ensures buildPrivate == PrivateFlag(runMode)
      ensures loggedPrivate
      ensures console == if old(loggedPrivate) then old(console) else old(console) + [PrivateMessage(runMode)]
    {
      var isLocalBuild := IsLocalBuild(runMode);
      buildPrivate := EnvAssignBool(isLocalBuild);
      if !loggedPrivate {
        console := console + [PrivateMessage(runMode)];
        loggedPrivate := true;
      }
    }

    /** The handler with the flag unset, rather than set to "false", outside local runs. */
    method OnBeforeIntended(runMode: string)
      requires Valid()
      modifies this
      ensures Valid()
      ensures buildPrivate == PrivateFlagIntended(runMode)
      ensures loggedPrivate
      ensures console == if old(loggedPrivate) then old(console) else old(console) + [PrivateMessage(runMode)]
    {
      buildPrivate := PrivateFlagIntended(runMode);
      if !loggedPrivate {
        console := console + [PrivateMessage(runMode)];
        loggedPrivate := true;
      }
    }
  }
}
