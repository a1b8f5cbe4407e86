/**
 * The two linked tag tables of the registries (`mTagIdsMap`/`mIdTagMap`,
 * `tagIdsMap`/`idTagMap`): tag to the set of ids grouped under it, and id to
 * its tag.
 */
module Tags {

  /** The tables mirror each other and no tag keeps an empty id set. */
  ghost predicate TagsValid(tagIds: map<string, set<int>>, idTag: map<int, string>) {
    (forall tag :: tag in tagIds ==>
       tagIds[tag] != {} && forall id :: id in tagIds[tag] ==> id in idTag && idTag[id] == tag) &&
    (forall id :: id in idTag ==> idTag[id] in tagIds && id in tagIds[idTag[id]])
  }

  /** The tag table with the ids in d removed and every tag left empty dropped. */
  ghost function TagsWithout(tagIds: map<string, set<int>>, d: set<int>): map<string, set<int>> {
    map tag | tag in tagIds && tagIds[tag] - d != {} :: tagIds[tag] - d
  }

  /** The tag table with id added to tag's set, creating the set when the tag is new. */
  ghost function TagsWith(tagIds: map<string, set<int>>, id: int, tag: string): map<string, set<int>> {
    tagIds[tag := (if tag in tagIds then tagIds[tag] else {}) + {id}]
  }

  lemma TagsWithoutNothing(tagIds: map<string, set<int>>, idTag: map<int, string>)
    requires TagsValid(tagIds, idTag)
    ensures TagsWithout(tagIds, {}) == tagIds
  {
    forall tag | tag in tagIds ensures tagIds[tag] - {} == tagIds[tag] != {} {
    }
    assert tagIds.Keys == TagsWithout(tagIds, {}).Keys;
  }

  /** Removing ids in two rounds is removing them all at once. */
  lemma TagsWithoutCompose(m: map<string, set<int>>, a: set<int>, b: set<int>)
    ensures TagsWithout(TagsWithout(m, a), b) == TagsWithout(m, a + b)
  {
    var l := TagsWithout(TagsWithout(m, a), b);
    var r := TagsWithout(m, a + b);
    forall tag | tag in m ensures m[tag] - a - b == m[tag] - (a + b) {
    }
    assert l.Keys == r.Keys;
  }

  /** Dropping ids from both tables keeps them mirrored, with no empty tag left behind. */
  lemma WithoutKeepsValid(tagIds: map<string, set<int>>, idTag: map<int, string>, d: set<int>)
    requires TagsValid(tagIds, idTag)
    ensures TagsValid(TagsWithout(tagIds, d), idTag - d)
  {
    var t := TagsWithout(tagIds, d);
    forall id | id in idTag - d ensures idTag[id] in t && id in t[idTag[id]] {
      assert id in tagIds[idTag[id]] - d;
    }
  }

  /** Linking a fresh id to a tag keeps the tables mirrored. */
  lemma WithKeepsValid(tagIds: map<string, set<int>>, idTag: map<int, string>, id: int, tag: string)
    requires TagsValid(tagIds, idTag) && id !in idTag
    ensures TagsValid(TagsWith(tagIds, id, tag), idTag[id := tag])
  {
    var t := TagsWith(tagIds, id, tag);
    forall g | g in t ensures t[g] != {} && forall j :: j in t[g] ==> j in idTag[id := tag] && idTag[id := tag][j] == g {
      if g == tag {
        assert id in t[g];
      }
    }
  }

  /** An id that has no tag leaves the tag table as it is. */
  lemma WithoutUntagged(tagIds: map<string, set<int>>, idTag: map<int, string>, id: int)
    requires TagsValid(tagIds, idTag) && id !in idTag
    ensures TagsWithout(tagIds, {id}) == tagIds
  {
    forall tag | tag in tagIds ensures tagIds[tag] - {id} == tagIds[tag] {
      assert id !in tagIds[tag];
    }
    assert tagIds.Keys == TagsWithout(tagIds, {id}).Keys;
  }

  /** Removing an id that has a tag shrinks that tag's set, and drops the tag once the set is empty. */
  lemma WithoutTagged(tagIds: map<string, set<int>>, idTag: map<int, string>, id: int)
    requires TagsValid(tagIds, idTag) && id in idTag
    ensures var tag := idTag[id];
      TagsWithout(tagIds, {id}) ==
        if tagIds[tag] - {id} == {} then tagIds - {tag} else tagIds[tag := tagIds[tag] - {id}]
  {
    var tag := idTag[id];
    var ids := tagIds[tag] - {id};
    var r := if ids == {} then tagIds - {tag} else tagIds[tag := ids];
    var w := TagsWithout(tagIds, {id});
    forall other | other in tagIds && other != tag ensures tagIds[other] - {id} == tagIds[other] {
      assert id !in tagIds[other];
    }
    assert w.Keys == r.Keys;
    forall other | other in w ensures w[other] == r[other] {
    }
  }
}
