/** The idea form's submit step: the comma-separated tag field becomes a
    list of normalised tags, and the form values become the object handed
    to the club store's `createIdea`, with the signed-in user as creator. */
module IdeaForm {
  import opened Wrappers
  import opened Seqs
  import opened Text
  import opened Entities
  import ClubStore

  /** One piece of the tag field as the parser cleans it up. */
  function NormalizeTag(piece: string): string {
    Lower(Trim(piece))
  }

  function IsNonEmptyTag(t: string): bool {
    t != []
  }

  /** A tag as the parser produces it: non-empty, trimmed, lower-case and
      free of the separator. */
  predicate IsTag(t: string) {
    t != [] && Trim(t) == t && Lower(t) == t && ',' !in t
  }

  /** `tags.split(',').map(tag => tag.trim().toLowerCase()).filter(tag => tag !== '')`. */
  function ParseTags(field: string): (r: seq<string>)
    ensures |r| <= CountChar(field, ',') + 1
    ensures forall t | t in r :: t != []
  {
    Filter(IsNonEmptyTag, Map(NormalizeTag, Split(field, ',')))
  }

  lemma NormalizeTagIsTag(piece: string)
    requires ',' !in piece
    requires NormalizeTag(piece) != []
    ensures IsTag(NormalizeTag(piece))
  {
    var t := Trim(piece);
    TrimShape(piece);
    TrimOfTrimmed(t);
    LowerKeepsTrimmed(t);
    forall i | 0 <= i < |t| ensures Lower(t)[i] != ',' {
      assert t[i] in piece;
    }
  }

  /** Every parsed tag is non-empty, trimmed, lower-case and comma-free. */
  lemma ParsedTagsAreTags(field: string)
    ensures forall t | t in ParseTags(field) :: IsTag(t)
  {
    var pieces := Split(field, ',');
    forall t | t in ParseTags(field) ensures IsTag(t) {
      var i :| 0 <= i < |pieces| && t == NormalizeTag(pieces[i]);
      NormalizeTagIsTag(pieces[i]);
    }
  }

  /** Tags come out in the order their pieces appear in the field. */
  lemma ParsedTagsKeepOrder(field: string)
    ensures IsSubsequence(ParseTags(field), Map(NormalizeTag, Split(field, ',')))
  {
    FilterIsSubsequence(IsNonEmptyTag, Map(NormalizeTag, Split(field, ',')));
  }

  /** A field of nothing but commas and whitespace yields no tags. */
  lemma SeparatorsOnlyYieldNoTags(field: string)
    requires forall i :: 0 <= i < |field| ==> field[i] == ',' || IsWhitespace(field[i])
    ensures ParseTags(field) == []
  {
    var pieces := Split(field, ',');
    SplitPiecesFromString(field, ',');
    forall i | 0 <= i < |pieces| ensures NormalizeTag(pieces[i]) == [] {
      var p := pieces[i];
      forall k | 0 <= k < |p| ensures IsWhitespace(p[k]) {
        assert p[k] in field;
      }
      TrimEmptyIffBlank(p);
    }
    FilterDropsAll(IsNonEmptyTag, Map(NormalizeTag, pieces));
  }

  lemma NormalizeKeepsTags(tags: seq<string>)
    requires forall i :: 0 <= i < |tags| ==> IsTag(tags[i])
    ensures Map(NormalizeTag, tags) == tags
  {
    var normal := Map(NormalizeTag, tags);
    forall i | 0 <= i < |tags| ensures normal[i] == tags[i] {
      assert Trim(tags[i]) == tags[i];
    }
  }

  /** Writing well-formed tags back comma-separated and parsing again gives
      the same list. */
  lemma ParseJoinedTags(tags: seq<string>)
    requires forall i :: 0 <= i < |tags| ==> IsTag(tags[i])
    ensures ParseTags(Join(tags, ',')) == tags
  {
    if tags == [] {
      assert Join(tags, ',') == [];
      ParseTagsOfPieces([], [[]]);
      assert NormalizeTag([]) == [];
      assert Map(NormalizeTag, [[]]) == [[]];
    } else {
      SplitJoin(tags, ',');
      NormalizeKeepsTags(tags);
      FilterKeepsAll(IsNonEmptyTag, tags);
      ParseTagsOfPieces(Join(tags, ','), tags);
    }
  }

  /** The parse of a field, given how it splits and how its pieces
      normalise. */
  lemma ParseTagsOfPieces(field: string, pieces: seq<string>)
    requires Split(field, ',') == pieces
    ensures ParseTags(field) == Filter(IsNonEmptyTag, Map(NormalizeTag, pieces))
  {
  }

  /** What the idea form holds when it is submitted. */
  datatype IdeaFormValues = IdeaFormValues(
    title: string,
    description: string,
    clubId: string,
    tags: string)

  /** `{ ...values, creator: currentUser.name, tags: tagsArray }`. */
  function SubmitIdeaDraft(v: IdeaFormValues, userName: string): (d: IdeaDraft)
    ensures d.creator == userName
    ensures d.tags == ParseTags(v.tags)
    ensures d.title == v.title && d.description == v.description && d.clubId == v.clubId
    ensures d.id.None? && d.votes.None? && d.status.None? && d.createdAt.None?
  {
    IdeaDraft(None, v.title, v.description, userName, v.clubId, ParseTags(v.tags), None, None, None)
  }

  /** Submitting the form creates an idea credited to the signed-in user,
      carrying well-formed tags, proposed with no votes, filed under the
      selected club and appended to the store. */
  lemma SubmittedIdeaIsWellFormed(
    s: ClubStore.Store, v: IdeaFormValues, userName: string, generatedId: string, today: string)
    ensures var r := ClubStore.CreateIdea(s, SubmitIdeaDraft(v, userName), generatedId, today);
      && r.record.creator == userName
      && r.record.id == generatedId
      && r.record.clubId == v.clubId
      && r.record.status == "proposed" && r.record.votes == 0
      && (forall t | t in r.record.tags :: IsTag(t))
      && r.store.ideas == s.ideas + [r.record]
  {
    ParsedTagsAreTags(v.tags);
  }
}
