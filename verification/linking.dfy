/** Internal linking (`internal-linking.php`): the keyword index table, the
    keyword lookup for a post, the content filter (which currently returns
    its input), and the bulk rewrite of existing posts.

    The index table has a unique key on `keyword`, so `$wpdb->replace`
    drops whatever row held the keyword before inserting the new one; the
    table is therefore a map from keyword to post id. */
module Linking {
  import opened Text

  type Index = map<string, nat>

  /** What `wp_is_post_revision` / `wp_is_post_autosave` say about a save. */
  datatype PostKind = Regular | Revision | Autosave

  /** `aiseo_update_keyword_index`: revisions and autosaves are ignored; a
      truthy primary keyword is (re)pointed at the saved post. No other row
      changes, so rows for the post's earlier keywords stay. */
  function UpdateKeywordIndex(index: Index, postId: nat, kind: PostKind, keyword: string): (r: Index)
    ensures (!kind.Regular? || !IsTruthy(keyword)) ==> r == index
    ensures (kind.Regular? && IsTruthy(keyword)) ==> keyword in r && r[keyword] == postId
    ensures forall k :: k in index && k != keyword ==> k in r && r[k] == index[k]
    ensures r.Keys <= index.Keys + {keyword}
  {
    if !kind.Regular? then index
    else if IsTruthy(keyword) then index[keyword := postId]
    else index
  }

  /** `aiseo_get_keywords_for_linking`: the rows of every other post. */
  function KeywordsForLinking(index: Index, postId: nat): (r: Index)
    ensures forall k :: k in r <==> k in index && index[k] != postId
    ensures forall k :: k in r ==> r[k] == index[k]
  {
    map k | k in index && index[k] != postId :: index[k]
  }

  /** Changing a post's keyword leaves the row for its old keyword pointing at
      it: the index keeps both. */
  lemma KeywordChangeKeepsOldRow(index: Index, postId: nat, previous: string, current: string)
    requires IsTruthy(previous) && IsTruthy(current) && previous != current
    ensures var r := UpdateKeywordIndex(UpdateKeywordIndex(index, postId, Regular, previous), postId, Regular, current);
            previous in r && r[previous] == postId && current in r && r[current] == postId
  {
  }

  /** After a post is indexed under a keyword, the lookup for any other post
      offers that keyword with a link to it, and its own lookup never does. */
  lemma IndexedKeywordOffered(index: Index, postId: nat, keyword: string, other: nat)
    requires IsTruthy(keyword) && other != postId
    ensures var r := UpdateKeywordIndex(index, postId, Regular, keyword);
            keyword in KeywordsForLinking(r, other) && KeywordsForLinking(r, other)[keyword] == postId &&
            keyword !in KeywordsForLinking(r, postId)
  {
  }

  /** `aiseo_add_internal_links`: returns the content unchanged. */
  function AddInternalLinks(content: string, postId: nat): string
  {
    content
  }

  datatype StoredPost = StoredPost(id: nat, content: string)

  /** A `wp_update_post` call of the bulk rewrite. */
  datatype Write = Write(id: nat, content: string)

  /** `aiseo_update_existing_posts` with the filter as a parameter: posts
      with empty content are skipped, and a post is written exactly when the
      filter changed its content. */
  function UpdateExistingPosts(posts: seq<StoredPost>, filter: (string, nat) -> string): (writes: seq<Write>)
    ensures |writes| <= |posts|
    ensures forall w :: w in writes ==>
              (exists p :: p in posts && p.id == w.id && IsTruthy(p.content) &&
                           w.content == filter(p.content, p.id) && w.content != p.content)
    ensures forall p :: p in posts && IsTruthy(p.content) && filter(p.content, p.id) != p.content ==>
              Write(p.id, filter(p.content, p.id)) in writes
  {
    if posts == [] then []
    else
      var p := posts[0];
      var rest := UpdateExistingPosts(posts[1..], filter);
      assert forall q :: q in posts[1..] ==> q in posts;
      assert forall q :: q in posts ==> q == p || q in posts[1..];
      if !IsTruthy(p.content) then rest
      else
        var updated := filter(p.content, p.id);
        if updated != p.content then [Write(p.id, updated)] + rest else rest
  }

  /** With the filter as it stands the bulk rewrite writes no post at all. */
  lemma {:induction false} IdentityFilterWritesNothing(posts: seq<StoredPost>)
    ensures UpdateExistingPosts(posts, AddInternalLinks) == []
    decreases |posts|
  {
    if posts != [] {
      IdentityFilterWritesNothing(posts[1..]);
    }
  }
}
