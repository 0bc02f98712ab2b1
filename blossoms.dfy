/**
 The product entity of the Blossom catalogue, its wire representation, and the
 pure helpers the controller uses on them: the lower-casing behind the
 case-insensitive name comparison and the field-by-field copies between the
 stored record and the DTO.
 */
module Blossoms {

  datatype Option<T> = None | Some(value: T)

  /** The price is carried around and never computed with; any totally ordered
      numeric stand-in would do. */
  type Price = real

  /** A stored row of the `Blossoms` table. */
  datatype Blossom = Blossom(
    id: int,
    name: string,
    productDescrip: string,
    price: Price,
    brand: string,
    imageUrl: string)

  /** The request/response representation; same fields as the row. */
  datatype BlossomDto = BlossomDto(
    id: int,
    name: string,
    productDescrip: string,
    price: Price,
    brand: string,
    imageUrl: string)

  /** The product table, keyed by the record's id. */
  type Table = map<int, Blossom>

  /** Every row is filed under its own id. */
  predicate WellKeyed(t: Table) {
    forall k :: k in t ==> t[k].id == k
  }

  // ---------------------------------------------------------------------------
  // Lower-casing (ASCII letters only)

  predicate IsUpper(c: char) {
    'A' <= c <= 'Z'
  }

  function LowerChar(c: char): char {
    if IsUpper(c) then (c as int + ('a' as int - 'A' as int)) as char else c
  }

  /** `string.ToLower`, restricted to the ASCII letters: each upper-case letter
      becomes its lower-case partner, every other character is kept. The
      result has the same length, agrees with the input position by position
      up to case, and holds no upper-case letter. */
  function ToLower(s: string): (r: string)
    ensures |r| == |s|
    ensures forall i :: 0 <= i < |s| ==> r[i] == LowerChar(s[i])
    ensures forall i :: 0 <= i < |r| ==> !IsUpper(r[i])
  {
    if s == [] then [] else [LowerChar(s[0])] + ToLower(s[1..])
  }

  /** Lower-casing twice is lower-casing once. */
  lemma ToLowerIdempotent(s: string)
    ensures ToLower(ToLower(s)) == ToLower(s)
  {
  }

  /** Two names that differ only in the case of their letters compare equal. */
  lemma CaseVariantsCompareEqual(a: string, b: string)
    requires |a| == |b|
    requires forall i :: 0 <= i < |a| ==> LowerChar(a[i]) == LowerChar(b[i])
    ensures ToLower(a) == ToLower(b)
  {
  }

  // ---------------------------------------------------------------------------
  // Copies between representation and row

  /** The row built by the create action: the five content fields of the
      request, under the key the store hands out. */
  function NewRecord(dto: BlossomDto, key: int): Blossom {
    Blossom(key, dto.name, dto.productDescrip, dto.price, dto.brand, dto.imageUrl)
  }

  /** The row built by the full update: all six fields of the request. */
  function RecordOf(dto: BlossomDto): Blossom {
    Blossom(dto.id, dto.name, dto.productDescrip, dto.price, dto.brand, dto.imageUrl)
  }

  /** The row the partial update writes back, built from the loaded row. */
  function Reloaded(b: Blossom): Blossom {
    Blossom(b.id, b.name, b.productDescrip, b.price, b.brand, b.imageUrl)
  }

  /** The content fields of a row are those of a request. */
  predicate Carries(b: Blossom, dto: BlossomDto) {
    && b.name == dto.name
    && b.productDescrip == dto.productDescrip
    && b.price == dto.price
    && b.brand == dto.brand
    && b.imageUrl == dto.imageUrl
  }
}
