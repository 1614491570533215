/** `product_images` rows as the storefront's image helpers see them, and the
    search for the first primary image they share. */
module ProductImages {
  import opened Base

  /** A `product_images` row: `is_primary` and `sort_order` are nullable. */
  datatype Image = Image(id: string, url: string, isPrimary: Option<bool>, sortOrder: Option<int>)

  /** `img.is_primary` is truthy. */
  predicate IsPrimary(img: Image) {
    img.isPrimary == Some(true)
  }

  /** `images.find(img => img.is_primary)`: the first primary image. */
  function FirstPrimary(images: seq<Image>): (r: Option<Image>)
    ensures r.None? <==> forall i :: 0 <= i < |images| ==> !IsPrimary(images[i])
    ensures r.Some? ==> exists i :: 0 <= i < |images| && images[i] == r.value && IsPrimary(r.value)
                                    && forall j :: 0 <= j < i ==> !IsPrimary(images[j])
    decreases |images|
  {
    if |images| == 0 then None
    else if IsPrimary(images[0]) then Some(images[0])
    else
      var r := FirstPrimary(images[1..]);
      if r.Some? then
        var i :| 0 <= i < |images[1..]| && images[1..][i] == r.value && IsPrimary(r.value)
                 && forall j :: 0 <= j < i ==> !IsPrimary(images[1..][j]);
        assert images[i + 1] == r.value;
        r
      else r
  }

  /** `!product.images || product.images.length === 0`. */
  predicate NoImages(images: Option<seq<Image>>) {
    images.None? || |images.value| == 0
  }
}

/** The image helpers of the storefront's shared types module. */
module StorefrontTypes {
  import opened Base
  import opened ProductImages
  import Sorting

  /** The sort key `sort_order ?? 999`. */
  function SortKey(img: Image): int {
    img.sortOrder.GetOr(999)
  }

  /** The comparator `(a.sort_order ?? 999) - (b.sort_order ?? 999)`, read as "a may come first". */
  predicate ByKey(a: Image, b: Image) {
    SortKey(a) <= SortKey(b)
  }

  /** The images whose key is `k`, in order. */
  function WithKey(s: seq<Image>, k: int): (r: seq<Image>)
    ensures forall i :: 0 <= i < |r| ==> SortKey(r[i]) == k
    decreases |s|
  {
    if |s| == 0 then [] else (if SortKey(s[0]) == k then [s[0]] else []) + WithKey(s[1..], k)
  }

  /** `getSortedImages`: the images ordered by key; `[]` when there are none. */
  function GetSortedImages(images: Option<seq<Image>>): (r: seq<Image>)
    ensures NoImages(images) ==> r == []
    ensures !NoImages(images) ==> multiset(r) == multiset(images.value)
  {
    if NoImages(images) then [] else Sorting.SortBy(images.value, ByKey)
  }

  /** The sorted images are ordered by key, and images with equal keys stay
      in their original order: the result is the stable sort. */
  lemma SortedImagesOrdered(images: Option<seq<Image>>)
    ensures var r := GetSortedImages(images);
            && (forall i, j :: 0 <= i < j < |r| ==> SortKey(r[i]) <= SortKey(r[j]))
            && (!NoImages(images) ==> forall k :: WithKey(r, k) == WithKey(images.value, k))
  {
    if !NoImages(images) {
      Sorting.SortBySorted(images.value, ByKey);
      forall k
        ensures WithKey(GetSortedImages(images), k) == WithKey(images.value, k)
      {
        SortKeepsTies(images.value, k);
      }
    }
  }

  lemma {:induction false} InsertKeepsTies(x: Image, t: seq<Image>, k: int)
    ensures WithKey(Sorting.Insert(x, t, ByKey), k)
         == (if SortKey(x) == k then [x] else []) + WithKey(t, k)
    decreases |t|
  {
    if |t| == 0 || ByKey(x, t[0]) {
      assert ([x] + t)[1..] == t;
    } else {
      InsertKeepsTies(x, t[1..], k);
      var r := Sorting.Insert(x, t[1..], ByKey);
      assert ([t[0]] + r)[1..] == r;
    }
  }

  lemma {:induction false} SortKeepsTies(s: seq<Image>, k: int)
    ensures WithKey(Sorting.SortBy(s, ByKey), k) == WithKey(s, k)
    decreases |s|
  {
    if |s| > 0 {
      SortKeepsTies(s[1..], k);
      InsertKeepsTies(s[0], Sorting.SortBy(s[1..], ByKey), k);
    }
  }

  /** The first image with key `k` is the first element of `WithKey(s, k)`. */
  lemma FirstWithKey(s: seq<Image>, k: int)
    requires |WithKey(s, k)| > 0
    ensures exists i :: 0 <= i < |s| && s[i] == WithKey(s, k)[0] && SortKey(s[i]) == k
                        && forall j :: 0 <= j < i ==> SortKey(s[j]) != k
    decreases |s|
  {
    if SortKey(s[0]) != k {
      FirstWithKey(s[1..], k);
      var i :| 0 <= i < |s[1..]| && s[1..][i] == WithKey(s[1..], k)[0] && SortKey(s[1..][i]) == k
               && forall j :: 0 <= j < i ==> SortKey(s[1..][j]) != k;
      assert s[i + 1] == s[1..][i];
    }
  }

  /** `getPrimaryImage`: none without images; otherwise the first primary
      image, or else the first image of least key. */
  function GetPrimaryImage(images: Option<seq<Image>>): (r: Option<Image>)
    ensures r.None? <==> NoImages(images)
    ensures r.Some? ==> r.value in images.value
    ensures !NoImages(images) && FirstPrimary(images.value).Some? ==> r == FirstPrimary(images.value)
  {
    if NoImages(images) then None
    else
      match FirstPrimary(images.value)
      case Some(img) => Some(img)
      case None =>
        var sorted := Sorting.SortBy(images.value, ByKey);
        assert sorted[0] in multiset(sorted);
        Some(sorted[0])
  }

  /** Without a primary image, the result is the earliest image among those
      with the least `sort_order ?? 999`. */
  lemma PrimaryFallsBackToLeastKey(images: seq<Image>)
    requires |images| > 0 && forall i :: 0 <= i < |images| ==> !IsPrimary(images[i])
    ensures exists i :: 0 <= i < |images| && GetPrimaryImage(Some(images)) == Some(images[i])
                        && (forall j :: 0 <= j < |images| ==> SortKey(images[i]) <= SortKey(images[j]))
                        && (forall j :: 0 <= j < i ==> SortKey(images[j]) > SortKey(images[i]))
  {
    var sorted := Sorting.SortBy(images, ByKey);
    var k := SortKey(sorted[0]);
    assert GetPrimaryImage(Some(images)) == Some(sorted[0]);
    SortedFirstIsLeast(images);
    FirstOfLeastKey(sorted);
    SortKeepsTies(images, k);
    FirstWithKey(images, k);
  }

  /** The first sorted image has the least key. */
  lemma SortedFirstIsLeast(images: seq<Image>)
    requires |images| > 0
    ensures forall j :: 0 <= j < |images| ==> SortKey(Sorting.SortBy(images, ByKey)[0]) <= SortKey(images[j])
  {
    var sorted := Sorting.SortBy(images, ByKey);
    Sorting.SortBySorted(images, ByKey);
    forall j | 0 <= j < |images|
      ensures SortKey(sorted[0]) <= SortKey(images[j])
    {
      assert images[j] in multiset(sorted);
      var m :| 0 <= m < |sorted| && sorted[m] == images[j];
      if m > 0 {
        assert ByKey(sorted[0], sorted[m]);
      }
    }
  }

  lemma FirstOfLeastKey(sorted: seq<Image>)
    requires |sorted| > 0
    ensures WithKey(sorted, SortKey(sorted[0])) == [sorted[0]] + WithKey(sorted[1..], SortKey(sorted[0]))
  {
  }
}

/** The image helper of the storefront's product pages. */
module ProductHelpers {
  import opened Base
  import opened ProductImages
  import StorefrontTypes

  /** `getPrimaryImage`: none without images; otherwise the first primary
      image, or else the first image. */
  function GetPrimaryImage(images: Option<seq<Image>>): (r: Option<Image>)
    ensures r.None? <==> NoImages(images)
    ensures r.Some? ==> r.value in images.value
    ensures !NoImages(images) && FirstPrimary(images.value).Some? ==> r == FirstPrimary(images.value)
    ensures !NoImages(images) && FirstPrimary(images.value).None? ==> r == Some(images.value[0])
  {
    if NoImages(images) then None
    else
      match FirstPrimary(images.value)
      case Some(img) => Some(img)
      case None => Some(images.value[0])
  }

  /** The two helpers pick the same image whenever one is primary; without a
      primary image they agree exactly when the first image has the least key. */
  lemma HelpersAgree(images: seq<Image>)
    requires |images| > 0
    ensures FirstPrimary(images).Some? ==>
              GetPrimaryImage(Some(images)) == StorefrontTypes.GetPrimaryImage(Some(images))
    ensures FirstPrimary(images).None? ==>
              (GetPrimaryImage(Some(images)) == StorefrontTypes.GetPrimaryImage(Some(images))
               <==> forall j :: 0 <= j < |images| ==> StorefrontTypes.SortKey(images[0]) <= StorefrontTypes.SortKey(images[j]))
  {
    if FirstPrimary(images).None? {
      StorefrontTypes.PrimaryFallsBackToLeastKey(images);
    }
  }
}
