/** The logo screen of the store customizer's sidebar: which edits it issues,
    and in which order, when a logo is picked, dropped or its settings are
    toggled. Each handler returns the calls it makes as a list of effects. */
module LogoSidebar {
  import opened Wrappers

  /** A string id or URL is truthy when present and non-empty. */
  predicate Truthy(s: Option<string>) {
    s.Some? && s.value != ""
  }

  /** A boolean attribute that may be undefined is truthy only when `true`. */
  predicate IsSet(b: Option<bool>) {
    b == Some(true)
  }

  /** A media item handed back by the media library or the upload. */
  datatype Media = Media(id: Option<string>, url: Option<string>)

  /** The logo block's attributes this screen reads or writes; each may be undefined. */
  datatype LogoAttributes = LogoAttributes(
    align: Option<string>,
    width: Option<real>,
    isLink: Option<bool>,
    shouldSyncIcon: Option<bool>)

  /** A one-key `setAttributes` argument. */
  datatype AttributeChange = ShouldSyncIcon(sync: bool) | IsLink(link: bool) | Width(width: real)

  /** The calls the screen makes. `EditSiteIcon(None)` writes `site_icon: null`,
      which resets the site icon; `EditSiteLogo(None)` writes `site_logo: undefined`. */
  datatype Effect =
    | UpdateBlockAttributes(clientId: string, change: AttributeChange)
    | EditSiteIcon(icon: Option<string>)
    | EditSiteLogo(logo: Option<string>)

  /** `setAttributes`: a no-op while there is no logo block client id. */
  function SetAttributes(clientId: Option<string>, change: AttributeChange): (r: seq<Effect>)
    ensures r == [] <==> !Truthy(clientId)
    ensures r != [] ==> r == [UpdateBlockAttributes(clientId.value, change)]
  {
    if Truthy(clientId) then [UpdateBlockAttributes(clientId.value, change)] else []
  }

  /** `setIcon`: `undefined` becomes `null` (`newValue ?? null`). */
  function SetIcon(newValue: Option<string>): (e: Effect)
    ensures e.EditSiteIcon?
    ensures newValue.None? ==> e.icon.None?
    ensures newValue.Some? ==> e.icon == newValue
  {
    EditSiteIcon(newValue)
  }

  /** `setLogo`: the site icon is written first, with the same value, when the
      block syncs the icon or the caller forces it; the logo is always written. */
  function SetLogo(shouldSyncIcon: Option<bool>, newValue: Option<string>, shouldForceSync: bool): (r: seq<Effect>)
    ensures 1 <= |r| <= 2
    ensures r[|r| - 1] == EditSiteLogo(newValue)
    ensures |r| == 2 <==> IsSet(shouldSyncIcon) || shouldForceSync
    ensures |r| == 2 ==> r[0] == EditSiteIcon(newValue)
  {
    (if IsSet(shouldSyncIcon) || shouldForceSync then [SetIcon(newValue)] else [])
    + [EditSiteLogo(newValue)]
  }

  /** A media item with a URL but no id is a temporary blob image still uploading. */
  predicate IsTemporaryBlob(media: Option<Media>) {
    media.Some? && !Truthy(media.value.id) && Truthy(media.value.url)
  }

  /** `onSelectLogo`: nothing for no media; a temporary blob clears the logo
      without forcing the icon sync; any other media becomes the logo. */
  function OnSelectLogo(shouldSyncIcon: Option<bool>, media: Option<Media>, shouldForceSync: bool): (r: seq<Effect>)
    ensures media.None? <==> r == []
    ensures IsTemporaryBlob(media) ==> r == SetLogo(shouldSyncIcon, None, false)
    ensures media.Some? && !IsTemporaryBlob(media) ==> r == SetLogo(shouldSyncIcon, media.value.id, shouldForceSync)
  {
    match media
    case None => []
    case Some(m) =>
      if !Truthy(m.id) && Truthy(m.url) then SetLogo(shouldSyncIcon, None, false)
      else SetLogo(shouldSyncIcon, m.id, shouldForceSync)
  }

  /** `onInitialSelectLogo`. While `shouldSyncIcon` is undefined it is first
      set to "there is no site icon", and the selection forces the sync with
      that same value, since the handler still sees the old attribute. */
  function OnInitialSelectLogo(clientId: Option<string>, shouldSyncIcon: Option<bool>, siteIconId: Option<string>, media: Option<Media>): (r: seq<Effect>)
    ensures shouldSyncIcon.Some? ==> r == OnSelectLogo(shouldSyncIcon, media, false)
    ensures shouldSyncIcon.None? ==>
      r == SetAttributes(clientId, ShouldSyncIcon(!Truthy(siteIconId)))
           + OnSelectLogo(None, media, !Truthy(siteIconId))
  {
    if shouldSyncIcon.None? then
      var shouldForceSync := !Truthy(siteIconId);
      SetAttributes(clientId, ShouldSyncIcon(shouldForceSync)) + OnSelectLogo(shouldSyncIcon, media, shouldForceSync)
    else
      OnSelectLogo(shouldSyncIcon, media, false)
  }

  /** The forced sync stands in for the attribute update: for any media that
      is not a temporary blob, the first selection issues the attribute update
      followed by exactly the edits a selection would issue once the attribute
      holds its new value. */
  lemma ForcedSyncMatchesUpdatedAttribute(clientId: Option<string>, siteIconId: Option<string>, media: Option<Media>)
    requires !IsTemporaryBlob(media)
    ensures
      var sync := !Truthy(siteIconId);
      OnInitialSelectLogo(clientId, None, siteIconId, media)
        == SetAttributes(clientId, ShouldSyncIcon(sync)) + OnSelectLogo(Some(sync), media, false)
  {
  }

  /** For a temporary blob the stand-in fails: with no site icon the first
      selection clears only the logo, while a selection after the attribute
      update would also reset the icon. */
  lemma TemporaryBlobSkipsForcedSync(clientId: Option<string>, siteIconId: Option<string>, url: string)
    requires !Truthy(siteIconId) && url != ""
    ensures
      var blob := Some(Media(None, Some(url)));
      && OnInitialSelectLogo(clientId, None, siteIconId, blob)
           == SetAttributes(clientId, ShouldSyncIcon(true)) + [EditSiteLogo(None)]
      && OnSelectLogo(Some(true), blob, false) == [EditSiteIcon(None), EditSiteLogo(None)]
  {
  }

  /** `isBlobURL`: a URL starting with `blob:`. */
  predicate IsBlobUrl(url: Option<string>) {
    url.Some? && |url.value| >= 5 && url.value[..5] == "blob:"
  }

  /** The upload callback of a dropped file: blob URLs are ignored, anything
      else goes through `onInitialSelectLogo`. */
  function OnFileChange(clientId: Option<string>, shouldSyncIcon: Option<bool>, siteIconId: Option<string>, image: Option<Media>): (r: seq<Effect>)
    ensures image.Some? && IsBlobUrl(image.value.url) ==> r == []
    ensures !(image.Some? && IsBlobUrl(image.value.url)) ==> r == OnInitialSelectLogo(clientId, shouldSyncIcon, siteIconId, image)
  {
    if image.Some? && IsBlobUrl(image.value.url) then [] else OnInitialSelectLogo(clientId, shouldSyncIcon, siteIconId, image)
  }

  /** A callback without an image still initialises the sync attribute. */
  lemma MissingImageStillInitialisesSync(clientId: Option<string>, siteIconId: Option<string>)
    ensures OnFileChange(clientId, None, siteIconId, None) == SetAttributes(clientId, ShouldSyncIcon(!Truthy(siteIconId)))
  {
  }

  /** The id of the logo shown: the media item's id, else the site logo setting. */
  function LogoId(mediaItemId: Option<string>, siteLogoId: Option<string>): (id: Option<string>)
    ensures Truthy(mediaItemId) ==> id == mediaItemId
    ensures !Truthy(mediaItemId) ==> id == siteLogoId
  {
    if Truthy(mediaItemId) then mediaItemId else siteLogoId
  }

  /** The "Use as site icon" toggle. */
  function OnUseAsSiteIcon(clientId: Option<string>, logoId: Option<string>, value: bool): (r: seq<Effect>)
    ensures |r| >= 1 && r[..|r| - 1] == SetAttributes(clientId, ShouldSyncIcon(value))
    ensures value ==> r[|r| - 1] == EditSiteIcon(logoId)
    ensures !value ==> r[|r| - 1] == EditSiteIcon(None)
  {
    SetAttributes(clientId, ShouldSyncIcon(value)) + [SetIcon(if value then logoId else None)]
  }

  /** The "Link logo to homepage" toggle negates the current `isLink`. */
  function OnLinkToHomepage(clientId: Option<string>, isLink: Option<bool>): (r: seq<Effect>)
    ensures !Truthy(clientId) ==> r == []
    ensures Truthy(clientId) ==> r == [UpdateBlockAttributes(clientId.value, IsLink(isLink != Some(true)))]
  {
    SetAttributes(clientId, IsLink(!IsSet(isLink)))
  }

  /** The image-width range control. */
  function OnWidthChange(clientId: Option<string>, newWidth: real): (r: seq<Effect>)
    ensures !Truthy(clientId) ==> r == []
    ensures Truthy(clientId) ==> r == [UpdateBlockAttributes(clientId.value, Width(newWidth))]
  {
    SetAttributes(clientId, Width(newWidth))
  }

  /** How the block editor merges the attribute updates addressed to `clientId`. */
  function ApplyUpdates(attributes: LogoAttributes, clientId: string, effects: seq<Effect>): (r: LogoAttributes)
    ensures (forall i :: 0 <= i < |effects| ==> !effects[i].UpdateBlockAttributes?) ==> r == attributes
    decreases |effects|
  {
    if |effects| == 0 then attributes
    else
      var next :=
        match effects[0]
        case UpdateBlockAttributes(id, change) =>
          if id != clientId then attributes
          else (match change
                case ShouldSyncIcon(s) => attributes.(shouldSyncIcon := Some(s))
                case IsLink(l) => attributes.(isLink := Some(l))
                case Width(w) => attributes.(width := Some(w)))
        case _ => attributes;
      ApplyUpdates(next, clientId, effects[1..])
  }

  /** With a block to address, flipping "Link logo to homepage" twice restores
      whether the logo links, and changes no other attribute. */
  lemma LinkToggleTwiceRestores(clientId: string, attributes: LogoAttributes)
    requires clientId != ""
    ensures
      var once := ApplyUpdates(attributes, clientId, OnLinkToHomepage(Some(clientId), attributes.isLink));
      var twice := ApplyUpdates(once, clientId, OnLinkToHomepage(Some(clientId), once.isLink));
      && IsSet(once.isLink) == !IsSet(attributes.isLink)
      && IsSet(twice.isLink) == IsSet(attributes.isLink)
      && twice.(isLink := attributes.isLink) == attributes
  {
  }

  /** The "Use as site icon" toggle leaves the block's sync attribute equal to
      the toggle, and the icon either equal to the logo or reset. */
  lemma UseAsSiteIconSyncsAttribute(clientId: string, attributes: LogoAttributes, logoId: Option<string>, value: bool)
    requires clientId != ""
    ensures
      var effects := OnUseAsSiteIcon(Some(clientId), logoId, value);
      && ApplyUpdates(attributes, clientId, effects) == attributes.(shouldSyncIcon := Some(value))
      && effects[|effects| - 1] == EditSiteIcon(if value then logoId else None)
  {
    var effects := OnUseAsSiteIcon(Some(clientId), logoId, value);
    assert effects[1..] == [EditSiteIcon(if value then logoId else None)];
  }

  /** The default width, also set in the block's front-end stylesheet. */
  const DefaultWidth: real := 120.0

  /** `width || defaultWidth`. */
  function CurrentWidth(width: Option<real>): (w: real)
    ensures width.Some? && width.value != 0.0 ==> w == width.value
    ensures width.None? || width.value == 0.0 ==> w == DefaultWidth
  {
    if width.Some? && width.value != 0.0 then width.value else DefaultWidth
  }

  /** A width chosen with the range control is the width shown afterwards,
      unless it is 0, which shows the default. */
  lemma WidthChangeIsShown(clientId: string, attributes: LogoAttributes, newWidth: real)
    requires clientId != ""
    ensures
      var shown := CurrentWidth(ApplyUpdates(attributes, clientId, OnWidthChange(Some(clientId), newWidth)).width);
      shown == (if newWidth == 0.0 then DefaultWidth else newWidth)
  {
  }

  /** The range control is enabled only on a large viewport for a block that
      is not wide- or full-aligned (an undefined alignment counts as ''). */
  function IsResizable(align: Option<string>, isLargeViewport: bool): (b: bool)
    ensures b <==> align != Some("wide") && align != Some("full") && isLargeViewport
    ensures align.None? ==> b == isLargeViewport
  {
    var a := align.GetOr("");
    !(a == "wide" || a == "full") && isLargeViewport
  }

  /** The `site_logo` setting as the screen reads it. */
  datatype SiteLogoSetting = NotLoaded | NoLogo | LogoSet(id: string)

  /** The logo block's attributes are still loading while the store returns no
      block, or a null one, for the client id. */
  predicate IsAttributesLoading(logoBlocks: seq<Option<LogoAttributes>>) {
    |logoBlocks| == 0 || logoBlocks[0].None?
  }

  /** The screen shows a spinner while the logo setting is undefined, its
      media item is being fetched, or the logo block or its attributes load. */
  function IsLoading(
    siteLogo: SiteLogoSetting,
    mediaResolved: bool,
    isLogoBlockLoading: bool,
    logoBlocks: seq<Option<LogoAttributes>>): (b: bool)
    ensures !b ==> siteLogo != NotLoaded && !isLogoBlockLoading && |logoBlocks| > 0 && logoBlocks[0].Some?
    ensures !b ==> siteLogo.LogoSet? && siteLogo.id != "" ==> mediaResolved
    ensures siteLogo == NotLoaded || isLogoBlockLoading || |logoBlocks| == 0 ==> b
    ensures (siteLogo != NotLoaded && !isLogoBlockLoading && |logoBlocks| > 0 && logoBlocks[0].Some?
             && (siteLogo.LogoSet? && siteLogo.id != "" ==> mediaResolved)) ==> !b
  {
    var isRequestingMediaItem := siteLogo.LogoSet? && siteLogo.id != "" && !mediaResolved;
    siteLogo == NotLoaded || isRequestingMediaItem || isLogoBlockLoading || IsAttributesLoading(logoBlocks)
  }

  /** Only a wide or full alignment disables resizing: any other alignment
      behaves as no alignment at all. */
  lemma OnlyWideOrFullBlocksResizing(align: string, isLargeViewport: bool)
    requires align != "wide" && align != "full"
    ensures IsResizable(Some(align), isLargeViewport) == IsResizable(None, isLargeViewport)
  {
  }

  /** Without a logo to show, no media item is requested, so whether one has
      resolved does not affect loading. */
  lemma NoLogoIgnoresMediaResolution(siteLogo: SiteLogoSetting, isLogoBlockLoading: bool, logoBlocks: seq<Option<LogoAttributes>>)
    requires siteLogo == NoLogo || siteLogo == LogoSet("")
    ensures IsLoading(siteLogo, false, isLogoBlockLoading, logoBlocks) == IsLoading(siteLogo, true, isLogoBlockLoading, logoBlocks)
  {
  }

  /** "Use as site icon" turned on makes the shown logo the site icon: the
      loaded media item's id, else the `site_logo` setting. */
  lemma SiteIconFollowsShownLogo(clientId: Option<string>, mediaItemId: Option<string>, siteLogoId: Option<string>)
    ensures
      var effects := OnUseAsSiteIcon(clientId, LogoId(mediaItemId, siteLogoId), true);
      effects[|effects| - 1] == EditSiteIcon(if Truthy(mediaItemId) then mediaItemId else siteLogoId)
  {
  }
}
