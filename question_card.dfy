/** The question card a player answers on: the rewriting of a video link into an
    embeddable one, the two answer handlers, and the option letters. */
module QuestionCard {
  import opened Basics
  import opened Text

  // ---------------------------------------------------------------------------
  // Video links

  /** The two video hosts whose links are rewritten, in the order they are tried. */
  datatype Site = YouTube | Vimeo

  const YouTubeWatch: string := "youtube.com/watch?v="
  const YouTubeShort: string := "youtu.be/"
  const VimeoPage: string := "vimeo.com/"
  const YouTubeEmbed: string := "https://www.youtube.com/embed/"
  const YouTubeSuffix: string := "?autoplay=1&mute=1"
  const VimeoEmbed: string := "https://player.vimeo.com/video/"
  const VimeoSuffix: string := "?autoplay=1&muted=1"

  predicate IsAsciiDigit(c: char) {
    '0' <= c <= '9'
  }

  /** The characters a video id may hold: for YouTube anything but `&` and white
      space, for Vimeo the decimal digits. */
  predicate IdChar(site: Site, c: char) {
    match site
    case YouTube => c != '&' && !IsWhiteSpace(c)
    case Vimeo => IsAsciiDigit(c)
  }

  /** `prefix` occurs in `url` at position `p`. */
  predicate OccursAt(url: string, p: nat, prefix: string) {
    p + |prefix| <= |url| && url[p..p + |prefix|] == prefix
  }

  /** Where the id starts when the site's pattern text occurs at `p`. */
  function IdStart(url: string, p: nat, site: Site): (s: Option<nat>)
    ensures s.Some? ==> p < s.value <= |url|
  {
    match site
    case YouTube =>
      if OccursAt(url, p, YouTubeWatch) then Some(p + |YouTubeWatch|)
      else if OccursAt(url, p, YouTubeShort) then Some(p + |YouTubeShort|)
      else None
    case Vimeo =>
      if OccursAt(url, p, VimeoPage) then Some(p + |VimeoPage|) else None
  }

  /** The site's pattern matches at `p`: its text, then at least one id character. */
  predicate MatchesAt(url: string, p: nat, site: Site) {
    var s := IdStart(url, p, site);
    s.Some? && s.value < |url| && IdChar(site, url[s.value])
  }

  /** The leftmost position at or after `from` where the site's pattern matches. */
  function FirstMatch(url: string, from: nat, site: Site): (r: Option<nat>)
    requires from <= |url|
    ensures r.Some? ==> from <= r.value < |url| && MatchesAt(url, r.value, site)
    ensures r.Some? ==> forall q :: from <= q < r.value ==> !MatchesAt(url, q, site)
    ensures r.None? ==> forall q :: from <= q <= |url| ==> !MatchesAt(url, q, site)
    decreases |url| - from
  {
    if from == |url| then None
    else if MatchesAt(url, from, site) then Some(from)
    else FirstMatch(url, from + 1, site)
  }

  /** The end of the longest run of id characters starting at `i`. */
  function RunEnd(url: string, i: nat, site: Site): (j: nat)
    requires i <= |url|
    ensures i <= j <= |url|
    ensures forall k :: i <= k < j ==> IdChar(site, url[k])
    ensures j < |url| ==> !IdChar(site, url[j])
    decreases |url| - i
  {
    if i < |url| && IdChar(site, url[i]) then RunEnd(url, i + 1, site) else i
  }

  /** The id the site's pattern captures: the greedy run after the leftmost match. */
  function Capture(url: string, site: Site): (id: Option<string>)
    ensures id.Some? <==> FirstMatch(url, 0, site).Some?
    ensures id.Some? ==>
              var s := IdStart(url, FirstMatch(url, 0, site).value, site).value;
              && id.value == url[s..RunEnd(url, s, site)]
              && |id.value| >= 1
              && (forall k :: 0 <= k < |id.value| ==> IdChar(site, id.value[k]))
  {
    var m := FirstMatch(url, 0, site);
    if m.None? then None
    else
      var s := IdStart(url, m.value, site).value;
      Some(url[s..RunEnd(url, s, site)])
  }

  /** `getEmbedUrl(url)`: a YouTube link becomes the YouTube player with autoplay
      and muting, failing that a Vimeo link becomes the Vimeo player, and any
      other link is kept. */
  function GetEmbedUrl(url: string): (r: string)
    ensures Capture(url, YouTube).Some? ==> r == YouTubeEmbed + Capture(url, YouTube).value + YouTubeSuffix
    ensures Capture(url, YouTube).None? && Capture(url, Vimeo).Some? ==>
              r == VimeoEmbed + Capture(url, Vimeo).value + VimeoSuffix
    ensures Capture(url, YouTube).None? && Capture(url, Vimeo).None? ==> r == url
  {
    var youtube := Capture(url, YouTube);
    if youtube.Some? then YouTubeEmbed + youtube.value + YouTubeSuffix
    else
      var vimeo := Capture(url, Vimeo);
      if vimeo.Some? then VimeoEmbed + vimeo.value + VimeoSuffix
      else url
  }

  /** Nothing in `url` before position `n` starts a YouTube or Vimeo pattern text. */
  predicate NoPatternTextBefore(url: string, n: nat, site: Site) {
    forall q :: 0 <= q < n ==> IdStart(url, q, site).None?
  }

  /** A text whose `i`th character differs from that at `p + i` does not occur at `p`. */
  lemma CharDiffers(url: string, p: nat, prefix: string, i: nat)
    requires i < |prefix| && (p + i < |url| ==> url[p + i] != prefix[i])
    ensures !OccursAt(url, p, prefix)
  {
    if p + |prefix| <= |url| {
      assert url[p..p + |prefix|][i] == url[p + i];
    }
  }

  /** The first match is found at `p` when nothing starts earlier and the pattern
      matches there; the id is then the whole rest of `url` when every remaining
      character may be in an id. */
  lemma CaptureRest(url: string, p: nat, site: Site)
    requires p < |url| && NoPatternTextBefore(url, p, site) && MatchesAt(url, p, site)
    requires forall k :: IdStart(url, p, site).value <= k < |url| ==> IdChar(site, url[k])
    ensures Capture(url, site) == Some(url[IdStart(url, p, site).value..])
  {
    var m := FirstMatch(url, 0, site);
    assert forall q :: 0 <= q < p ==> !MatchesAt(url, q, site);
    assert m.Some? && m.value <= p;
    assert m.value == p;
    var s := IdStart(url, p, site).value;
    assert RunEnd(url, s, site) == |url|;
    assert Capture(url, site) == Some(url[s..RunEnd(url, s, site)]);
    assert url[s..RunEnd(url, s, site)] == url[s..];
  }

  /** A video id is a non-empty run of id characters. */
  predicate IsVideoId(site: Site, id: string) {
    |id| >= 1 && forall k :: 0 <= k < |id| ==> IdChar(site, id[k])
  }

  /** A YouTube watch link is rewritten to the player for the same video. */
  lemma WatchLinkEmbeds(id: string)
    requires IsVideoId(YouTube, id)
    ensures GetEmbedUrl("https://www." + YouTubeWatch + id) == YouTubeEmbed + id + YouTubeSuffix
  {
    var url := "https://www." + YouTubeWatch + id;
    var p := |"https://www."|;
    assert url[p..p + |YouTubeWatch|] == YouTubeWatch;
    assert url[p + |YouTubeWatch|..] == id;
    forall q | 0 <= q < p ensures IdStart(url, q, YouTube).None? {
      assert url[q] == "https://www."[q] != 'y';
      CharDiffers(url, q, YouTubeWatch, 0);
      CharDiffers(url, q, YouTubeShort, 0);
    }
    forall k | p + |YouTubeWatch| <= k < |url| ensures IdChar(YouTube, url[k]) {
      assert url[k] == id[k - p - |YouTubeWatch|];
    }
    CaptureRest(url, p, YouTube);
  }

  /** A short YouTube link is rewritten to the player for the same video. */
  lemma ShortLinkEmbeds(id: string)
    requires IsVideoId(YouTube, id)
    ensures GetEmbedUrl("https://" + YouTubeShort + id) == YouTubeEmbed + id + YouTubeSuffix
  {
    var url := "https://" + YouTubeShort + id;
    var p := |"https://"|;
    assert url[p..p + |YouTubeShort|] == YouTubeShort;
    assert url[p + 5] == '.';
    CharDiffers(url, p, YouTubeWatch, 5);
    assert url[p + |YouTubeShort|..] == id;
    forall q | 0 <= q < p ensures IdStart(url, q, YouTube).None? {
      assert url[q] == "https://"[q] != 'y';
      CharDiffers(url, q, YouTubeWatch, 0);
      CharDiffers(url, q, YouTubeShort, 0);
    }
    forall k | p + |YouTubeShort| <= k < |url| ensures IdChar(YouTube, url[k]) {
      assert url[k] == id[k - p - |YouTubeShort|];
    }
    CaptureRest(url, p, YouTube);
  }

  /** Text without a `y` holds no YouTube link. */
  lemma NoYNoYouTube(url: string)
    requires forall k :: 0 <= k < |url| ==> url[k] != 'y'
    ensures Capture(url, YouTube).None?
  {
    forall q | 0 <= q <= |url| ensures !MatchesAt(url, q, YouTube) {
      CharDiffers(url, q, YouTubeWatch, 0);
      CharDiffers(url, q, YouTubeShort, 0);
    }
  }

  /** A Vimeo link is rewritten to the Vimeo player for the same video. */
  lemma VimeoLinkEmbeds(id: string)
    requires IsVideoId(Vimeo, id)
    ensures GetEmbedUrl("https://" + VimeoPage + id) == VimeoEmbed + id + VimeoSuffix
  {
    var url := "https://" + VimeoPage + id;
    var p := |"https://"|;
    assert url[p..p + |VimeoPage|] == VimeoPage;
    assert url[p + |VimeoPage|..] == id;
    forall k | 0 <= k < |url| ensures url[k] != 'y' {
      if k >= p + |VimeoPage| {
        assert url[k] == id[k - p - |VimeoPage|];
      }
    }
    NoYNoYouTube(url);
    forall q | 0 <= q < p ensures IdStart(url, q, Vimeo).None? {
      assert url[q] == "https://"[q] != 'v';
      CharDiffers(url, q, VimeoPage, 0);
    }
    forall k | p + |VimeoPage| <= k < |url| ensures IdChar(Vimeo, url[k]) {
      assert url[k] == id[k - p - |VimeoPage|];
    }
    CaptureRest(url, p, Vimeo);
  }

  /** A YouTube link wins over a Vimeo link in the same text, wherever each stands. */
  lemma YouTubeTriedFirst(url: string)
    requires Capture(url, YouTube).Some? && Capture(url, Vimeo).Some?
    ensures GetEmbedUrl(url) == YouTubeEmbed + Capture(url, YouTube).value + YouTubeSuffix
  {
  }

  // ---------------------------------------------------------------------------
  // Answering

  /** The letter shown beside option `i`: `A` for the first, then on in
      character code order. */
  function OptionLabel(i: nat): (c: char)
    requires 65 + i < 0xD800
    ensures c as int == 65 + i
  {
    (65 + i) as char
  }

  /** The first 26 options are lettered `A` to `Z`, and no two options share a letter. */
  lemma OptionLabelsDistinct(i: nat, j: nat)
    requires 65 + i < 0xD800 && 65 + j < 0xD800
    ensures i < 26 ==> 'A' <= OptionLabel(i) <= 'Z'
    ensures OptionLabel(0) == 'A'
    ensures OptionLabel(i) == OptionLabel(j) <==> i == j
  {
  }

  /** The card's own state: the text typed so far and the option last picked. */
  class Card {
    var textAnswer: string
    var selectedOption: Option<string>

    constructor ()
      ensures textAnswer == "" && selectedOption.None?
    {
      textAnswer := "";
      selectedOption := None;
    }

    /** Typing into the answer field. */
    method Type(text: string)
      modifies this
      ensures textAnswer == text && selectedOption == old(selectedOption)
    {
      textAnswer := text;
    }

    /** `handleSubmitText`: the typed text, untrimmed, is sent exactly when it is
        not blank and the card is enabled, and the field is then cleared;
        otherwise nothing is sent or changed. */
    method SubmitText(disabled: bool) returns (sent: Option<string>)
      modifies this
      ensures sent.Some? <==> Trim(old(textAnswer)) != [] && !disabled
      ensures sent.Some? ==> sent.value == old(textAnswer) && textAnswer == ""
      ensures sent.None? ==> textAnswer == old(textAnswer)
      ensures selectedOption == old(selectedOption)
    {
      if Trim(textAnswer) != [] && !disabled {
        sent := Some(textAnswer);
        textAnswer := "";
      } else {
        sent := None;
      }
    }

    /** `handleSelectOption`: on an enabled card the option is marked and its
        text sent; a disabled card ignores the click. */
    method SelectOption(option: string, disabled: bool) returns (sent: Option<string>)
      modifies this
      ensures disabled ==> sent.None? && selectedOption == old(selectedOption)
      ensures !disabled ==> sent == Some(option) && selectedOption == Some(option)
      ensures textAnswer == old(textAnswer)
    {
      if disabled {
        return None;
      }
      selectedOption := Some(option);
      sent := Some(option);
    }
  }

  /** Whether the submit button is enabled: exactly when a submission would be sent. */
  function SubmitEnabled(textAnswer: string, disabled: bool): (b: bool)
    ensures b <==> !disabled && Trim(textAnswer) != []
  {
    !(disabled || Trim(textAnswer) == [])
  }

  /** A blank answer is never sent, however much white space it holds, and
      padding a sendable answer keeps it sendable. */
  lemma BlankNeverSent(w: string, x: string, w2: string)
    requires AllWhiteSpace(w) && AllWhiteSpace(w2)
    ensures !SubmitEnabled(w, false)
    ensures SubmitEnabled(w + x + w2, false) == SubmitEnabled(x, false)
  {
    TrimEmptyIff(w);
    TrimIgnoresPadding(w, x, w2);
  }
}
