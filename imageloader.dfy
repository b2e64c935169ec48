/**
 * The image loader service of the user interface: images are looked up by
 * identifier in a table shared by every instance; an image not yet in the
 * table is located through the resource service and read from there, and a
 * successfully read image is stored so that later lookups find it.
 *
 * The resource service and the image reader are parameters: `resources`
 * gives the location of an image, if it has one, and `read` the image read
 * from a location, `None` when reading throws or yields no image (storing a
 * missing image in the table throws too, and both are caught the same way).
 */
module ImageLoader {
  import opened Wrappers

  /** An image identifier, compared by its text. */
  datatype ImageId = ImageId(id: string)

  /** A decoded image. */
  datatype Image = Image(raster: seq<int>)

  /** The location of an image resource. */
  type Url = string

  type Byte = bv8

  /** The table of loaded images; it never holds a missing image. */
  type Cache = map<ImageId, Image>

  /**
   * What `getImage(id)` returns, and the table afterwards, when called on
   * table `cache`: the stored image on a hit; on a miss, the image read from
   * the resource location, stored under `id`, or nothing, with the table
   * unchanged, when there is no location or the read fails.
   */
  function Lookup(cache: Cache, id: ImageId, resources: string -> Option<Url>,
                  read: Url -> Option<Image>): (r: (Option<Image>, Cache))
    // a hit answers from the table, whatever the resource service and the reader do
    ensures id in cache ==> r == (Some(cache[id]), cache)
    // a miss without a location answers nothing and changes nothing
    ensures id !in cache && resources(id.id).None? ==> r == (None, cache)
    // a miss consults the reader exactly at the resource location
    ensures id !in cache && resources(id.id).Some? ==> r.0 == read(resources(id.id).value)
    // an image returned is stored under its identifier; nothing returned, nothing stored
    ensures r.0.Some? ==> id in r.1 && r.1[id] == r.0.value
    ensures r.0.None? ==> r.1 == cache
    // the table only grows, and only at `id`
    ensures forall k :: k in cache ==> k in r.1 && r.1[k] == cache[k]
    ensures r.1.Keys <= cache.Keys + {id}
  {
    if id in cache then (Some(cache[id]), cache)
    else
      match resources(id.id)
      case None => (None, cache)
      case Some(path) =>
        match read(path)
        case None => (None, cache)
        case Some(image) => (Some(image), cache[id := image])
  }

  /** Once an image has been returned, the next lookup of the same identifier is a hit that returns it again. */
  lemma {:induction false} NextLookupHits(cache: Cache, id: ImageId, resources: string -> Option<Url>, read: Url -> Option<Image>,
                       resources': string -> Option<Url>, read': Url -> Option<Image>)
    requires Lookup(cache, id, resources, read).0.Some?
    ensures var (image, cache') := Lookup(cache, id, resources, read);
            Lookup(cache', id, resources', read') == (image, cache')
  {
  }

  /** The table after a sequence of lookups, in order. */
  function LookupAll(cache: Cache, ids: seq<ImageId>, resources: string -> Option<Url>,
                     read: Url -> Option<Image>): Cache
    decreases |ids|
  {
    if ids == [] then cache
    else Lookup(LookupAll(cache, ids[..|ids| - 1], resources, read), ids[|ids| - 1], resources, read).1
  }

  /**
   * Lookups only add: every image in the table stays there, and what is
   * added lies under one of the identifiers looked up.
   */
  lemma {:induction false} LookupsOnlyAdd(cache: Cache, ids: seq<ImageId>, resources: string -> Option<Url>,
                                          read: Url -> Option<Image>)
    ensures var c := LookupAll(cache, ids, resources, read);
            (forall k :: k in cache ==> k in c && c[k] == cache[k])
            && (forall k :: k in c && k !in cache ==> k in ids)
    decreases |ids|
  {
    if ids != [] {
      var front := ids[..|ids| - 1];
      LookupsOnlyAdd(cache, front, resources, read);
      assert forall k :: k in front ==> k in ids;
    }
  }

  /**
   * An image once returned is returned by every later lookup of its
   * identifier, for as long as the table is not cleared.
   */
  lemma {:induction false} LoadedStaysLoaded(cache: Cache, id: ImageId, ids: seq<ImageId>,
                                             resources: string -> Option<Url>, read: Url -> Option<Image>)
    requires id in cache
    ensures var c := LookupAll(cache, ids, resources, read);
            Lookup(c, id, resources, read) == (Some(cache[id]), c)
  {
    LookupsOnlyAdd(cache, ids, resources, read);
  }

  /** The image loader service. */
  class ImageLoaderService {
    /** The table of loaded images, `loadedImages`. */
    var loadedImages: Cache

    /** The table starts out empty. */
    constructor()
      ensures loadedImages == map[]
    {
      loadedImages := map[];
    }

    /** `getImage(imageID)` */
    method GetImage(id: ImageId, resources: string -> Option<Url>, read: Url -> Option<Image>)
      returns (image: Option<Image>)
      modifies this
      ensures (image, loadedImages) == Lookup(old(loadedImages), id, resources, read)
    {
      image := None;
      if id in loadedImages {
        image := Some(loadedImages[id]);
      } else {
        var path := resources(id.id);
        if path.Some? {
          var loaded := read(path.value);
          if loaded.Some? {
            image := loaded;
            loadedImages := loadedImages[id := loaded.value];
          }
        }
      }
    }

    /**
     * `getImageBytes(imageID)`: the encoded image, or nothing exactly when
     * `getImage` returns nothing; the table changes as it does for `getImage`.
     */
    method GetImageBytes(id: ImageId, resources: string -> Option<Url>, read: Url -> Option<Image>,
                         encode: Image -> seq<Byte>)
      returns (bytes: Option<seq<Byte>>)
      modifies this
      ensures var (image, cache) := Lookup(old(loadedImages), id, resources, read);
              loadedImages == cache
              && (bytes.None? <==> image.None?)
              && (image.Some? ==> bytes == Some(encode(image.value)))
    {
      var image := GetImage(id, resources, read);
      if image.Some? {
        bytes := Some(encode(image.value));
      } else {
        bytes := None;
      }
    }

    /** `clearCache()`: forgets every loaded image. */
    method ClearCache()
      modifies this
      ensures loadedImages == map[]
    {
      loadedImages := map[];
    }
  }

  /** After the table is cleared every lookup is a miss again and consults the resource service. */
  lemma {:induction false} ClearedMisses(id: ImageId, resources: string -> Option<Url>, read: Url -> Option<Image>)
    ensures Lookup(map[], id, resources, read).0 ==
              (match resources(id.id) case None => None case Some(path) => read(path))
  {
  }
}
