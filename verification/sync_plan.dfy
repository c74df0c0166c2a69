/**
 * The planning phase of the sync command: restrict the collection to the
 * requested identifiers, then give every item a relative path of the form
 * `<band>/<title>[ (<id>)]*[<ext>]`, where band and title pass through the
 * path sanitizer, one ` (<id>)` is appended per other item with the same raw
 * band and title but a different identifier, and tracks get the extension
 * of the chosen encoding.
 */
module SyncPlan {
  import opened Strings
  import opened FileSystem
  import opened Items
  import opened Downloads

  // ---------------------------------------------------------------------------
  // Restricting the collection
  // ---------------------------------------------------------------------------

  /** The items whose identifier is listed, in collection order. */
  function FilterByIds(items: seq<Item>, ids: seq<Int64>): (r: seq<Item>)
    ensures |r| <= |items|
    ensures forall x :: x in r <==> x in items && x.id in ids
    decreases |items|
  {
    if |items| == 0 then []
    else (if items[0].id in ids then [items[0]] else []) + FilterByIds(items[1..], ids)
  }

  /** The collection to sync: everything when no identifiers are given, otherwise the listed ones. */
  function SelectItems(items: seq<Item>, ids: seq<Int64>): (r: seq<Item>)
    ensures |ids| == 0 ==> r == items
    ensures |ids| > 0 ==> forall x :: x in r <==> x in items && x.id in ids
  {
    if |ids| > 0 then FilterByIds(items, ids) else items
  }

  /** Filtering keeps relative order: filtering a concatenation concatenates the filtered parts. */
  lemma {:induction false} FilterByIdsAppend(a: seq<Item>, b: seq<Item>, ids: seq<Int64>)
    ensures FilterByIds(a + b, ids) == FilterByIds(a, ids) + FilterByIds(b, ids)
    decreases |a|
  {
    if |a| == 0 {
      assert a + b == b;
    } else {
      assert (a + b)[0] == a[0];
      assert (a + b)[1..] == a[1..] + b;
      FilterByIdsAppend(a[1..], b, ids);
    }
  }

  /** Filtering drops nothing when every identifier is listed. */
  lemma {:induction false} FilterByIdsKeepsListed(items: seq<Item>, ids: seq<Int64>)
    requires forall i :: 0 <= i < |items| ==> items[i].id in ids
    ensures FilterByIds(items, ids) == items
    decreases |items|
  {
    if |items| > 0 {
      FilterByIdsKeepsListed(items[1..], ids);
      assert [items[0]] + items[1..] == items;
    }
  }

  // ---------------------------------------------------------------------------
  // The path sanitizer
  // ---------------------------------------------------------------------------

  /** The characters the path sanitizer replaces. */
  predicate Forbidden(c: char) {
    c == '/' || c == '?' || c == '<' || c == '>' || c == ':' || c == '|' || c == '"' || c == '*'
  }

  function PathChar(c: char): char {
    if Forbidden(c) then '_' else c
  }

  /** The sanitizer replacer: each forbidden character becomes '_', every other one (non-ASCII included) stays. */
  function Sanitize(s: string): (r: string)
    ensures |r| == |s|
    ensures forall i :: 0 <= i < |s| ==> (Forbidden(s[i]) ==> r[i] == '_') && (!Forbidden(s[i]) ==> r[i] == s[i])
  {
    MapChars(s, PathChar)
  }

  /** The sanitized string holds no forbidden character, and no '/' in particular. */
  lemma {:induction false} SanitizeBounds(s: string)
    ensures forall i :: 0 <= i < |s| ==> !Forbidden(Sanitize(s)[i])
    ensures NoSlash(Sanitize(s))
  {
  }

  /** The sanitizer is the identity on clean strings, and hence idempotent. */
  lemma {:induction false} SanitizeIdempotent(s: string)
    ensures (forall i :: 0 <= i < |s| ==> !Forbidden(s[i])) ==> Sanitize(s) == s
    ensures Sanitize(Sanitize(s)) == Sanitize(s)
  {
  }

  // ---------------------------------------------------------------------------
  // Names
  // ---------------------------------------------------------------------------

  /** Same raw band and title. */
  predicate SameWork(x: Item, y: Item) {
    x.bandName == y.bandName && x.title == y.title
  }

  /** `y` is another release of the same work: same raw band and title, different identifier. */
  predicate Collides(x: Item, y: Item) {
    SameWork(x, y) && x.id != y.id
  }

  /** How many entries of `items` collide with `x`, counted as the inner loop meets them. */
  function CollisionCount(x: Item, items: seq<Item>): (r: nat)
    ensures r <= |items|
    ensures r > 0 ==> exists k :: 0 <= k < |items| && Collides(x, items[k])
    decreases |items|
  {
    if |items| == 0 then 0
    else CollisionCount(x, items[..|items| - 1]) + (if Collides(x, items[|items| - 1]) then 1 else 0)
  }

  /** The count is at most the number of entries, and zero exactly when no entry collides. */
  lemma {:induction false} CollisionCountZero(x: Item, items: seq<Item>)
    ensures CollisionCount(x, items) <= |items|
    ensures CollisionCount(x, items) == 0 <==> forall k :: 0 <= k < |items| ==> !Collides(x, items[k])
    decreases |items|
  {
    if |items| > 0 {
      var init := items[..|items| - 1];
      CollisionCountZero(x, init);
      assert forall k :: 0 <= k < |init| ==> init[k] == items[k];
    }
  }

  /** The sanitized band directory joined with the sanitized title. */
  function BaseName(x: Item): string {
    Join(Sanitize(x.bandName), Sanitize(x.title))
  }

  /** The text appended once per collision: a space and the decimal identifier in parentheses. */
  function IdSuffix(id: int): string {
    " (" + FormatInt(id) + ")"
  }

  /** `s` appended to itself `k` times. */
  function Repeat(s: string, k: nat): string {
    if k == 0 then "" else Repeat(s, k - 1) + s
  }

  /** Tracks carry the encoding's extension; every other item type, albums included, carries none. */
  function ExtensionFor(x: Item, enc: Encoding): string {
    if x.itemType == TrackType then Extension(enc) else ""
  }

  /** The name the planning loop gives `x` within the selected collection `items`. */
  function PlannedName(items: seq<Item>, x: Item, enc: Encoding): (r: string)
    ensures |r| >= |BaseName(x)| + |ExtensionFor(x, enc)|
    ensures r[..|BaseName(x)|] == BaseName(x)
    ensures r[|r| - |ExtensionFor(x, enc)|..] == ExtensionFor(x, enc)
  {
    BaseName(x) + Repeat(IdSuffix(x.id), CollisionCount(x, items)) + ExtensionFor(x, enc)
  }

  /** The planning loop: one name per item, in collection order. */
  method PlanNames(items: seq<Item>, enc: Encoding) returns (names: seq<string>)
    ensures |names| == |items|
    ensures forall i :: 0 <= i < |items| ==> names[i] == PlannedName(items, items[i], enc)
  {
    names := [];
    var i := 0;
    while i < |items|
      invariant 0 <= i <= |items|
      invariant |names| == i
      invariant forall k :: 0 <= k < i ==> names[k] == PlannedName(items, items[k], enc)
    {
      var name := ItemName(items, items[i], enc);
      PlannedAppend(items, enc, names, name);
      names := names + [name];
      i := i + 1;
    }
  }

  /** Appending the next item's planned name keeps the names planned so far. */
  lemma {:induction false} PlannedAppend(items: seq<Item>, enc: Encoding, names: seq<string>, name: string)
    requires |names| < |items|
    requires forall k :: 0 <= k < |names| ==> names[k] == PlannedName(items, items[k], enc)
    requires name == PlannedName(items, items[|names|], enc)
    ensures forall k :: 0 <= k <= |names| ==> (names + [name])[k] == PlannedName(items, items[k], enc)
  {
    forall k | 0 <= k <= |names| ensures (names + [name])[k] == PlannedName(items, items[k], enc) {
      if k < |names| {
        assert (names + [name])[k] == names[k];
      }
    }
  }

  /** One pass of the planning loop: the suffixed name, then the extension for a track. */
  method ItemName(items: seq<Item>, item: Item, enc: Encoding) returns (name: string)
    ensures name == PlannedName(items, item, enc)
  {
    name := SuffixedName(item, items);
    if item.itemType == TrackType {
      name := name + Extension(enc);
    }
  }

  /** The inner loop of the plan: the base name followed by one suffix per colliding entry. */
  method SuffixedName(item: Item, items: seq<Item>) returns (name: string)
    ensures name == BaseName(item) + Repeat(IdSuffix(item.id), CollisionCount(item, items))
  {
    name := Join(Sanitize(item.bandName), Sanitize(item.title));
    ghost var base := name;
    ghost var suffix := IdSuffix(item.id);
    var j := 0;
    while j < |items|
      invariant 0 <= j <= |items|
      invariant name == base + Repeat(suffix, CollisionCount(item, items[..j]))
    {
      SuffixStep(item, items, j, base, name);
      if Collides(item, items[j]) {
        name := name + IdSuffix(item.id);
      }
      j := j + 1;
    }
    assert items[..j] == items;
  }

  /** One pass of the inner loop keeps the name equal to the base followed by one suffix per collision so far. */
  lemma {:induction false} SuffixStep(x: Item, items: seq<Item>, j: nat, base: string, name: string)
    requires j < |items|
    requires name == base + Repeat(IdSuffix(x.id), CollisionCount(x, items[..j]))
    ensures (if Collides(x, items[j]) then name + IdSuffix(x.id) else name)
      == base + Repeat(IdSuffix(x.id), CollisionCount(x, items[..j + 1]))
  {
    CollisionStep(x, items, j);
    if Collides(x, items[j]) {
      var before := Repeat(IdSuffix(x.id), CollisionCount(x, items[..j]));
      assert name + IdSuffix(x.id) == base + (before + IdSuffix(x.id));
    }
  }

  /** One more entry met by the inner loop adds one suffix exactly when it collides. */
  lemma {:induction false} CollisionStep(x: Item, items: seq<Item>, j: nat)
    requires j < |items|
    ensures CollisionCount(x, items[..j + 1])
      == CollisionCount(x, items[..j]) + (if Collides(x, items[j]) then 1 else 0)
    ensures Repeat(IdSuffix(x.id), CollisionCount(x, items[..j]) + 1)
      == Repeat(IdSuffix(x.id), CollisionCount(x, items[..j])) + IdSuffix(x.id)
  {
    assert items[..j + 1][..j] == items[..j];
  }

  /** An item that collides with nothing is named band/title, plus the extension for a track. */
  lemma {:induction false} NameWithoutCollision(items: seq<Item>, x: Item, enc: Encoding)
    requires forall y :: y in items ==> !Collides(x, y)
    ensures PlannedName(items, x, enc) == Sanitize(x.bandName) + "/" + Sanitize(x.title) + ExtensionFor(x, enc)
    ensures x.itemType == TrackType ==> PlannedName(items, x, enc) == BaseName(x) + Extension(enc)
    ensures x.itemType != TrackType ==> PlannedName(items, x, enc) == BaseName(x)
  {
    CollisionCountZero(x, items);
  }

  /** Entries with the same raw band and title as `x`. */
  function GroupCount(x: Item, items: seq<Item>): (r: nat)
    decreases |items|
  {
    if |items| == 0 then 0
    else
      var last := items[|items| - 1];
      GroupCount(x, items[..|items| - 1]) + (if SameWork(last, x) then 1 else 0)
  }

  /** Entries with the same raw band, title and identifier as `x`. */
  function SameIdCount(x: Item, items: seq<Item>): (r: nat)
    decreases |items|
  {
    if |items| == 0 then 0
    else
      var last := items[|items| - 1];
      SameIdCount(x, items[..|items| - 1]) + (if SameWork(last, x) && last.id == x.id then 1 else 0)
  }

  /** Every entry of `x`'s group either collides with it or shares its identifier. */
  lemma {:induction false} GroupSplits(x: Item, items: seq<Item>)
    ensures CollisionCount(x, items) + SameIdCount(x, items) == GroupCount(x, items)
    decreases |items|
  {
    if |items| > 0 {
      GroupSplits(x, items[..|items| - 1]);
    }
  }

  /** Only `items[i]` itself shares its band, title and identifier when the group's identifiers are distinct. */
  lemma {:induction false} SameIdCountOne(items: seq<Item>, i: nat, x: Item)
    requires i < |items| && items[i] == x
    requires forall j :: 0 <= j < |items| && j != i && SameWork(items[j], x) ==> items[j].id != x.id
    ensures SameIdCount(x, items) == 1
    decreases |items|
  {
    var init := items[..|items| - 1];
    if i < |items| - 1 {
      SameIdCountOne(init, i, x);
    } else {
      SameIdCountNone(init, x);
    }
  }

  lemma {:induction false} SameIdCountNone(items: seq<Item>, x: Item)
    requires forall j :: 0 <= j < |items| && SameWork(items[j], x) ==> items[j].id != x.id
    ensures SameIdCount(x, items) == 0
    decreases |items|
  {
    if |items| > 0 {
      SameIdCountNone(items[..|items| - 1], x);
    }
  }

  /**
   * In a group of k items with the same raw band and title and pairwise
   * distinct identifiers, each item's own ` (<id>)` is appended k - 1 times.
   */
  lemma {:induction false} GroupSuffixCount(items: seq<Item>, i: nat)
    requires i < |items|
    requires forall j :: 0 <= j < |items| && j != i && SameWork(items[j], items[i]) ==> items[j].id != items[i].id
    ensures CollisionCount(items[i], items) == GroupCount(items[i], items) - 1
  {
    GroupSplits(items[i], items);
    SameIdCountOne(items, i, items[i]);
  }

  /** A repetition of at least one copy starts with that copy. */
  lemma {:induction false} RepeatStartsWithCopy(s: string, k: nat)
    requires k >= 1
    ensures Repeat(s, k) == s + Repeat(s, k - 1)
    decreases k
  {
    if k > 1 {
      RepeatStartsWithCopy(s, k - 1);
    }
  }

  /** Two strings free of ')' that are each followed by ')' in equal strings are equal. */
  lemma {:induction false} CloseParenPrefix(a: string, b: string, u: string, v: string)
    requires forall i :: 0 <= i < |a| ==> a[i] != ')'
    requires forall i :: 0 <= i < |b| ==> b[i] != ')'
    requires a + ")" + u == b + ")" + v
    ensures a == b
  {
    var s := a + ")" + u;
    assert forall i :: 0 <= i < |a| ==> s[i] != ')';
    assert forall i :: 0 <= i < |b| ==> s[i] == (b + ")" + v)[i] != ')';
    assert s[|a|] == ')' && (b + ")" + v)[|b|] == ')';
    assert |a| == |b|;
    assert a == s[..|a|] && b == (b + ")" + v)[..|b|];
  }

  /** A common prefix can be stripped from both sides of an equation. */
  lemma {:induction false} StripPrefix(p: string, a: string, b: string)
    requires p + a == p + b
    ensures a == b
  {
    assert a == (p + a)[|p|..];
    assert b == (p + b)[|p|..];
  }

  /** A colliding item's name is its base name, " (", its identifier, ")" and the rest. */
  lemma {:induction false} CollidedNameShape(items: seq<Item>, x: Item, enc: Encoding)
    requires CollisionCount(x, items) >= 1
    ensures PlannedName(items, x, enc)
      == BaseName(x) + " (" + (FormatInt(x.id) + ")" + (Repeat(IdSuffix(x.id), CollisionCount(x, items) - 1) + ExtensionFor(x, enc)))
  {
    RepeatStartsWithCopy(IdSuffix(x.id), CollisionCount(x, items));
  }

  /** An item of `items` colliding with `x` makes `x`'s collision count positive. */
  lemma {:induction false} CollisionCounted(items: seq<Item>, x: Item, y: Item)
    requires y in items && Collides(x, y)
    ensures CollisionCount(x, items) >= 1
  {
    var iy :| 0 <= iy < |items| && items[iy] == y;
    assert Collides(x, items[iy]);
    CollisionCountZero(x, items);
  }

  /**
   * Two items of a collision group always get distinct names: each name
   * begins, after the shared band/title, with its own identifier.
   */
  lemma {:induction false} NamesDistinctInGroup(items: seq<Item>, x: Item, y: Item, enc: Encoding)
    requires x in items && y in items && Collides(x, y)
    ensures PlannedName(items, x, enc) != PlannedName(items, y, enc)
  {
    CollisionCounted(items, x, y);
    CollisionCounted(items, y, x);
    CollidedNameShape(items, x, enc);
    CollidedNameShape(items, y, enc);
    var restX := Repeat(IdSuffix(x.id), CollisionCount(x, items) - 1) + ExtensionFor(x, enc);
    var restY := Repeat(IdSuffix(y.id), CollisionCount(y, items) - 1) + ExtensionFor(y, enc);
    assert BaseName(y) == BaseName(x);
    if PlannedName(items, x, enc) == PlannedName(items, y, enc) {
      StripPrefix(BaseName(x) + " (", FormatInt(x.id) + ")" + restX, FormatInt(y.id) + ")" + restY);
      CloseParenPrefix(FormatInt(x.id), FormatInt(y.id), restX, restY);
      FormatIntInjective(x.id, y.id);
    }
  }

  /**
   * A track and an album, both "A"/"B", with identifiers 1 and 2: the track
   * becomes "A/B (1)" with its extension and the album the directory "A/B (2)".
   */
  lemma {:induction false} TrackAlbumPairExample(t: Item, a: Item, enc: Encoding)
    requires t.id == 1 && a.id == 2 && t.itemType == TrackType && a.itemType == AlbumType
    requires t.bandName == "A" && a.bandName == "A" && t.title == "B" && a.title == "B"
    ensures PlannedName([t, a], t, enc) == "A/B (1)" + Extension(enc)
    ensures PlannedName([t, a], a, enc) == "A/B (2)"
  {
    PairCollisions(t, a);
    PlainBase(t);
    PlainBase(a);
    OneSuffix(1, " (1)");
    OneSuffix(2, " (2)");
    assert "A/B" + " (1)" == "A/B (1)";
    assert "A/B" + " (2)" == "A/B (2)";
  }

  /** Band "A" and title "B" need no sanitizing. */
  lemma {:induction false} PlainBase(x: Item)
    requires x.bandName == "A" && x.title == "B"
    ensures BaseName(x) == "A/B"
  {
    assert Sanitize("A") == "A" && Sanitize("B") == "B";
  }

  /** One collision appends the identifier once, in parentheses. */
  lemma {:induction false} OneSuffix(id: int, suffix: string)
    requires 0 <= id < 10 && suffix == " (" + [DigitChar(id)] + ")"
    ensures Repeat(IdSuffix(id), 1) == suffix
  {
    assert FormatInt(id) == [DigitChar(id)];
  }

  /** Two releases of the same work each meet one collision in the pair. */
  lemma {:induction false} PairCollisions(t: Item, a: Item)
    requires SameWork(t, a) && t.id != a.id
    ensures CollisionCount(t, [t, a]) == 1 && CollisionCount(a, [t, a]) == 1
  {
    assert [t, a][..1] == [t];
    assert [t, a][..1][..0] == [];
    assert CollisionCount(t, [t]) == 0 && CollisionCount(a, [t]) == 1;
  }

  /**
   * The plan is not injective over a whole collection: raw titles that
   * differ only in forbidden characters are not treated as duplicates, yet
   * sanitize to the same path.
   */
  lemma {:induction false} SanitizedTitlesCanCollide(x: Item, y: Item, enc: Encoding)
    requires x.id == 1 && y.id == 2 && x.itemType == AlbumType && y.itemType == AlbumType
    requires x.bandName == "A" && y.bandName == "A" && x.title == "B?" && y.title == "B*"
    ensures x != y && PlannedName([x, y], x, enc) == PlannedName([x, y], y, enc) == "A/B_"
  {
    assert [x, y][..1] == [x];
    assert [x, y][..1][..0] == [];
    assert CollisionCount(x, [x]) == 0 && CollisionCount(y, [x]) == 0;
    assert CollisionCount(x, [x, y]) == 0;
    assert CollisionCount(y, [x, y]) == 0;
    assert Sanitize("A") == "A";
    assert Sanitize("B?") == "B_" && Sanitize("B*") == "B_";
  }

  /** A clean raw title passes the sanitizer unchanged. */
  lemma {:induction false} CleanTitle(t: string)
    requires t == "B (1)"
    ensures Sanitize(t) == t
  {
    assert !Forbidden(t[0]) && !Forbidden(t[1]) && !Forbidden(t[2]) && !Forbidden(t[3]) && !Forbidden(t[4]);
    SanitizeIdempotent(t);
  }

  /** Album 1 "A"/"B" with one colliding entry is named "A/B (1)". */
  lemma {:induction false} OnceSuffixedName(items: seq<Item>, x: Item, enc: Encoding)
    requires x.id == 1 && x.itemType == AlbumType && x.bandName == "A" && x.title == "B"
    requires CollisionCount(x, items) == 1
    ensures PlannedName(items, x, enc) == "A/B (1)"
  {
    assert Sanitize("A") == "A" && Sanitize("B") == "B";
    assert FormatInt(1) == "1";
    assert Repeat(IdSuffix(1), 1) == " (1)";
  }

  /** Album "A"/"B (1)" with no colliding entry is named "A/B (1)". */
  lemma {:induction false} UnsuffixedName(items: seq<Item>, z: Item, enc: Encoding)
    requires z.itemType == AlbumType && z.bandName == "A" && z.title == "B (1)"
    requires CollisionCount(z, items) == 0
    ensures PlannedName(items, z, enc) == "A/B (1)"
  {
    CleanTitle(z.title);
    assert Sanitize("A") == "A";
  }

  /**
   * Nor does the suffix make a name unique: an item whose raw title already
   * ends in " (1)" takes the name the suffix gives a colliding item 1.
   */
  lemma {:induction false} SuffixedTitleCanCollide(x: Item, y: Item, z: Item, enc: Encoding)
    requires x.id == 1 && y.id == 2 && z.id == 3
    requires x.itemType == AlbumType && y.itemType == AlbumType && z.itemType == AlbumType
    requires x.bandName == "A" && y.bandName == "A" && z.bandName == "A"
    requires x.title == "B" && y.title == "B" && z.title == "B (1)"
    ensures x != z && PlannedName([x, y, z], x, enc) == PlannedName([x, y, z], z, enc) == "A/B (1)"
  {
    var items := [x, y, z];
    assert items[..2] == [x, y] && items[..2][..1] == [x] && items[..2][..1][..0] == [];
    assert Collides(x, y) && !Collides(x, x) && !Collides(x, z);
    assert !Collides(z, x) && !Collides(z, y) && !Collides(z, z);
    assert CollisionCount(x, [x]) == 0 && CollisionCount(z, [x]) == 0;
    assert CollisionCount(x, [x, y]) == 1 && CollisionCount(z, [x, y]) == 0;
    OnceSuffixedName(items, x, enc);
    UnsuffixedName(items, z, enc);
  }
}
