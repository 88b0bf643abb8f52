/** The fixed lists an article is screened against. */
module Blocking {
  import opened Text

  /** Phrases of anti-automation walls, matched against the lower-cased cleaned text. */
  const BlockPhrases: seq<string> := [
    "enable javascript",
    "ativar javascript",
    "automated requests",
    "captcha",
    "verify you are human",
    "zscaler to protect"
  ]

  /** Low-value or blocked sites, matched as substrings of the link (Google and Bing variants). */
  const BlockedSites: seq<string> := [
    "google.com",
    "google.se",
    "youtube.com",
    "facebook.com",
    "instagram.com",
    "transfermarkt.co",
    "twitter.com",
    "tiktok.com",
    "linkedin.com",
    "wikipedia.org"
  ]

  /** The shorter site list of the Streamlit variant; its last entry is "tiktok", not "tiktok.com". */
  const LegacyBlockedSites: seq<string> := [
    "google.com",
    "youtube.com",
    "facebook.com",
    "instagram.com",
    "transfermarkt.co",
    "twitter.com",
    "tiktok"
  ]

  predicate IsBlockedContent(limpo: string) {
    ContainsAny(Lower(limpo), BlockPhrases)
  }

  predicate IsBlockedSite(link: string) {
    ContainsAny(link, BlockedSites)
  }

  predicate IsLegacyBlockedSite(link: string) {
    ContainsAny(link, LegacyBlockedSites)
  }

  /** Blanked content never counts as blocked. */
  lemma EmptyNotBlocked()
    ensures !IsBlockedContent("")
    ensures !ContainsAny("", LegacyBlockedSites) && !ContainsAny("", BlockedSites)
  {
  }
}
