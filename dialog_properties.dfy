/** What pressing the dialog's primary button does to the cache and to the
    user's variables: as written, and as corrected. */
module DialogProperties {
  import opened Options
  import opened Paths
  import opened SystemIO
  import opened SystemEnvironment
  import opened Relocation
  import opened RelocationProperties
  import opened StrictRelocation
  import opened DevDriveDialog

  /** As written, the variable is pointed at the typed folder even when the
      move failed at once: here the typed path is an existing file, so
      CreateDirectory throws, nothing moves, and the variable still names it. */
  lemma SettingWrittenAfterFailedMove(s: DialogState, src: Path, name: string, text: string, platform: Platform)
    requires ValidName(name) && !DeletesVariable(text)
    requires ParsePath(text).Some? && IsFile(s.fs, ParsePath(text).value)
    ensures MoveTree(s.fs, src, ParsePath(text).value, platform).caught.Some?
    ensures var r := ConfirmAsWritten(s, src, name, text, platform);
      r.fs == s.fs && name in r.vars && r.vars[name] == text
  {
    var tgt := ParsePath(text).value;
    assert IsPrefix(tgt, tgt);
    assert CreateDir(s.fs, tgt).Err?;
  }

  /** As written, an empty text box (the text is never null) moves nothing,
      CreateDirectory("") throwing, and deletes the variable. */
  lemma EmptyTextDeletesSetting(s: DialogState, src: Path, name: string, platform: Platform)
    requires ValidName(name)
    ensures var r := ConfirmAsWritten(s, src, name, "", platform);
      r.fs == s.fs && name !in r.vars
      && forall k :: k != name ==> (k in r.vars <==> k in s.vars) && (k in s.vars ==> r.vars[k] == s.vars[k])
  {
  }

  /** As corrected, pressing the button never loses a file of the cache: each
      one is afterwards in the cache or at its place under the target. The
      variable changes only when the whole cache has moved, and then it names
      the target. */
  lemma ConfirmCheckedKeepsCacheAndSetting(s: DialogState, src: Path, name: string, text: string, platform: Platform)
    requires WellFormed(s.fs) && ValidOrder(platform.order)
    ensures var r := ConfirmChecked(s, src, name, text, platform);
      && WellFormed(r.fs)
      && (ParsePath(text).None? ==> r == s)
      && (ParsePath(text).Some? ==> KeepsEveryFile(s.fs, r.fs, src, ParsePath(text).value))
      && (r.vars != s.vars ==>
            && ParsePath(text).Some?
            && (forall rel :: IsFile(s.fs, src + rel) ==>
                  ParsePath(text).value + rel in r.fs && r.fs[ParsePath(text).value + rel] == s.fs[src + rel])
            && (forall q :: IsPrefix(src, q) ==> q !in r.fs))
      && (RelocateChecked(s.fs, src, text, platform).caught.None? && ValidName(name) && !DeletesVariable(text) ==>
            name in r.vars && r.vars[name] == text)
  {
    match ParsePath(text)
    case None =>
    case Some(tgt) =>
      if Disjoint(src, tgt) && DirExists(s.fs, src) {
        MoveTreeStrictKeeps(s.fs, src, tgt, platform);
        var r := ConfirmChecked(s, src, name, text, platform);
        if r.vars != s.vars {
          forall rel | IsFile(s.fs, src + rel) ensures tgt + rel in r.fs && r.fs[tgt + rel] == s.fs[src + rel] {
            PrefixOfAppend(src, rel);
            assert KeptAt(s.fs, r.fs, src + rel, tgt + rel);
          }
        }
      }
  }

  /** As written, typing the cache's own location deletes the cache: each file
      is moved onto its own name, the final recursive delete removes the whole
      cache, and the variable is pointed at the folder that no longer exists.
      As corrected, the text is refused and nothing changes. */
  lemma CacheLocationAsTargetDeletesCache(s: DialogState, src: Path, name: string, text: string, platform: Platform)
    requires WellFormed(s.fs) && ValidOrder(platform.order) && src != [] && DirExists(s.fs, src)
    requires forall m :: IsFile(s.fs, src + [m]) ==> src + [m] !in platform.faults
    requires ParsePath(text) == Some(src) && ValidName(name) && !DeletesVariable(text)
    ensures var r := ConfirmAsWritten(s, src, name, text, platform);
      && (forall q :: IsPrefix(src, q) ==> q !in r.fs)
      && name in r.vars && r.vars[name] == text
    ensures ConfirmChecked(s, src, name, text, platform) == s
  {
    SelfTargetDeletesSource(s.fs, src, platform);
    assert IsPrefix(src, src);
  }
}
