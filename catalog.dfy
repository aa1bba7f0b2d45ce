/**
  The raw catalog records returned by the games query (fields `name`,
  `slug`, `first_release_date`, `platforms.name`, `platforms.abbreviation`,
  `cover.image_id`) and the per-record derivations that server.js and
  next-month.js share: JavaScript truthiness of the fields, the platform
  summary and the cover image URL.
*/
module Catalog {
  import opened Wrappers
  import opened Text

  datatype Platform = Platform(name: Option<string>, abbreviation: Option<string>)

  datatype Cover = Cover(imageId: Option<string>)

  /** A catalog record; `None` stands for a field that is absent or null. */
  datatype Game = Game(
    name: Option<string>,
    slug: Option<string>,
    firstReleaseDate: Option<int>,
    platforms: Option<seq<Platform>>,
    cover: Option<Cover>)

  /** JavaScript truthiness of an optional string: present and non-empty. */
  predicate IsTruthy(s: Option<string>) {
    s.Some? && s.value != ""
  }

  /** A template literal prints an absent value as "undefined". */
  function Interpolated(s: Option<string>): string {
    if s.Some? then s.value else "undefined"
  }

  /** `!game.first_release_date` is false: the date is present and not 0. */
  predicate HasReleaseDate(g: Game) {
    g.firstReleaseDate.Some? && g.firstReleaseDate.value != 0
  }

  /** The release time in milliseconds, `first_release_date * 1000`. */
  function ReleaseMs(g: Game): int
    requires HasReleaseDate(g)
  {
    g.firstReleaseDate.value * 1000
  }

  /**
    What `join` writes for `p.abbreviation || p.name`: the abbreviation when
    it is truthy, otherwise the name, and "" for an absent or null name.
  */
  function PlatformLabel(p: Platform): string {
    if IsTruthy(p.abbreviation) then p.abbreviation.value
    else if p.name.Some? then p.name.value
    else ""
  }

  function Labels(ps: seq<Platform>): (r: seq<string>)
    ensures |r| == |ps| && forall i :: 0 <= i < |ps| ==> r[i] == PlatformLabel(ps[i])
  {
    if ps == [] then [] else [PlatformLabel(ps[0])] + Labels(ps[1..])
  }

  /** True when `game.platforms && game.platforms.length` is truthy. */
  predicate HasPlatforms(g: Game) {
    g.platforms.Some? && |g.platforms.value| > 0
  }

  /** The platform summary with the given placeholder for a record without platforms. */
  function PlatformSummary(g: Game, placeholder: string): string {
    if HasPlatforms(g) then Join(Labels(g.platforms.value), ", ") else placeholder
  }

  const CoverPrefix: string := "https://images.igdb.com/igdb/image/upload/t_cover_big/"
  const CoverSuffix: string := ".jpg"

  /** True when `game.cover && game.cover.image_id` is truthy. */
  predicate HasCoverImage(g: Game) {
    g.cover.Some? && IsTruthy(g.cover.value.imageId)
  }

  function CoverUrl(g: Game): Option<string> {
    if HasCoverImage(g) then Some(CoverPrefix + g.cover.value.imageId.value + CoverSuffix) else None
  }

  /** The image id of a cover URL: what lies between the fixed prefix and suffix. */
  function ImageIdOf(url: string): Option<string> {
    if |url| >= |CoverPrefix| + |CoverSuffix| && url[..|CoverPrefix|] == CoverPrefix
       && url[|url| - |CoverSuffix|..] == CoverSuffix
    then Some(url[|CoverPrefix|..|url| - |CoverSuffix|])
    else None
  }

  /**
    A record with a truthy `cover.image_id` gets the URL of that image, one
    whose id reads back from it; any other record gets null.
  */
  lemma CoverUrlRoundTrip(g: Game)
    ensures CoverUrl(g).Some? <==> HasCoverImage(g)
    ensures HasCoverImage(g) ==> ImageIdOf(CoverUrl(g).value) == g.cover.value.imageId
  {
    if HasCoverImage(g) {
      var id := g.cover.value.imageId.value;
      var url := CoverPrefix + id + CoverSuffix;
      assert url[..|CoverPrefix|] == CoverPrefix;
      assert url[|url| - |CoverSuffix|..] == CoverSuffix;
      assert url[|CoverPrefix|..|url| - |CoverSuffix|] == id;
    }
  }

  /**
    The summary of a record with platforms is their labels, in order, joined
    by ", ": label i stands at offset JoinOffset(labels, ", ", i), the sum of
    the lengths of the labels before it plus 2 for each of them; ", "
    follows every label but the last, and the summary ends with the last.
    A record without platforms gets the placeholder.
  */
  lemma PlatformSummaryShape(g: Game, placeholder: string, i: int)
    ensures !HasPlatforms(g) ==> PlatformSummary(g, placeholder) == placeholder
    ensures HasPlatforms(g) && 0 <= i < |g.platforms.value| ==>
      var ls := Labels(g.platforms.value); var s := PlatformSummary(g, placeholder);
      var o := JoinOffset(ls, ", ", i); var here := PlatformLabel(g.platforms.value[i]);
      o + |here| <= |s| && s[o..o + |here|] == here
      && (i + 1 < |ls| ==> JoinOffset(ls, ", ", i + 1) <= |s| && s[o + |here|..JoinOffset(ls, ", ", i + 1)] == ", ")
      && (i + 1 == |ls| ==> |s| == o + |here|)
  {
    if HasPlatforms(g) && 0 <= i < |g.platforms.value| {
      JoinLayout(Labels(g.platforms.value), ", ", i);
    }
  }
}
