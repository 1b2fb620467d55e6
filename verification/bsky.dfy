/** Bluesky record type names the filters and the feed reader test for. */
module Bsky {
  /** The `$type` of a feed entry's reason when the entry is a repost. */
  const ReasonRepost: string := "app.bsky.feed.defs#reasonRepost"

  /** The `$type` of a post record. */
  const PostType: string := "app.bsky.feed.post"

  /** Embed types that do not count as an embed: link cards and quoted
      records. */
  const NotEmbeds: set<string> := {"app.bsky.embed.external", "app.bsky.embed.record"}
}
