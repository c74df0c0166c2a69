/**
 * The collection entries the storefront API returns: items (tracks and
 * albums), the sale they came from, and the identifier strings both render
 * as. Item and sale types are plain strings in the API; the known codes are
 * constants.
 */
module Items {
  import opened Outcomes
  import opened Strings

  /** The kind of an item as the API spells it; `code` is the underlying string. */
  datatype ItemType = ItemType(code: string) {
    /** The type's string form is its code, unchanged. */
    function String(): (r: string)
      ensures |r| == |code| && forall i :: 0 <= i < |r| ==> r[i] == code[i]
    {
      code
    }
  }

  const AlbumType: ItemType := ItemType("a")
  const TrackType: ItemType := ItemType("t")

  /** How an item was acquired, as the API spells it. */
  datatype SaleType = SaleType(code: string)

  /** Redeemed from a code. */
  const CodeSale: SaleType := SaleType("c")
  /** Purchased individually from an artist. */
  const PurchaseSale: SaleType := SaleType("p")
  /** Purchased as part of a whole discography. */
  const RecordsSale: SaleType := SaleType("r")

  datatype Sale = Sale(id: Int64, saleType: SaleType)

  /**
   * One track of an album: its 1-based position and its title. The record
   * is declared outside the files this model follows; only these two
   * fields are used.
   */
  datatype Track = Track(number: int, title: string)

  /**
   * A purchased item. The purchase time and price are left out; `download`
   * is the page the download descriptor is scraped from and `tracks` lists
   * an album's tracks.
   */
  datatype Item = Item(
    id: Int64,
    itemType: ItemType,
    bandName: string,
    title: string,
    artUrl: string,
    sale: Sale,
    currency: string,
    download: string,
    tracks: seq<Track>)

  /** Item.String: the type code immediately followed by the decimal identifier. */
  function ItemString(item: Item): (r: string)
    ensures var k := |item.itemType.code|;
      && |r| > k && r[..k] == item.itemType.code
      && (r[k] == '-' <==> item.id < 0)
      && AllDigits(r[(if item.id < 0 then k + 1 else k)..])
  {
    var r := item.itemType.String() + FormatInt(item.id);
    assert r[|item.itemType.code|..] == FormatInt(item.id);
    r
  }

  /** Sale.String: the sale type code immediately followed by the decimal sale identifier. */
  function SaleString(sale: Sale): (r: string)
    ensures var k := |sale.saleType.code|;
      && |r| > k && r[..k] == sale.saleType.code
      && (r[k] == '-' <==> sale.id < 0)
      && AllDigits(r[(if sale.id < 0 then k + 1 else k)..])
  {
    var r := sale.saleType.code + FormatInt(sale.id);
    assert r[|sale.saleType.code|..] == FormatInt(sale.id);
    r
  }

  /** Every known type code is one character, and the codes of each family are pairwise distinct. */
  lemma {:induction false} TypeCodes()
    ensures |AlbumType.code| == 1 && |TrackType.code| == 1 && AlbumType != TrackType
    ensures |CodeSale.code| == 1 && |PurchaseSale.code| == 1 && |RecordsSale.code| == 1
    ensures CodeSale != PurchaseSale && CodeSale != RecordsSale && PurchaseSale != RecordsSale
  {
  }

  /**
   * An item's string starts with its type code, and what follows the code
   * parses back to the identifier.
   */
  lemma {:induction false} ItemStringRoundTrip(item: Item)
    ensures var s := ItemString(item); var k := |item.itemType.code|;
      |s| > k && s[..k] == item.itemType.code && ParseInt(s[k..]) == Some(item.id)
  {
    var s := ItemString(item);
    var k := |item.itemType.code|;
    assert s[k..] == FormatInt(item.id);
    FormatIntRoundTrip(item.id);
  }

  /** For a fixed type code, Item.String tells identifiers apart. */
  lemma {:induction false} ItemStringInjective(a: Item, b: Item)
    requires a.itemType == b.itemType && ItemString(a) == ItemString(b)
    ensures a.id == b.id
  {
    ItemStringRoundTrip(a);
    ItemStringRoundTrip(b);
  }

  /**
   * A sale's string starts with its type code, and what follows the code
   * parses back to the sale identifier.
   */
  lemma {:induction false} SaleStringRoundTrip(sale: Sale)
    ensures var s := SaleString(sale); var k := |sale.saleType.code|;
      |s| > k && s[..k] == sale.saleType.code && ParseInt(s[k..]) == Some(sale.id)
  {
    var s := SaleString(sale);
    var k := |sale.saleType.code|;
    assert s[k..] == FormatInt(sale.id);
    FormatIntRoundTrip(sale.id);
  }

  /** For a fixed sale type, Sale.String tells sale identifiers apart. */
  lemma {:induction false} SaleStringInjective(a: Sale, b: Sale)
    requires a.saleType == b.saleType && SaleString(a) == SaleString(b)
    ensures a.id == b.id
  {
    SaleStringRoundTrip(a);
    SaleStringRoundTrip(b);
  }
}
