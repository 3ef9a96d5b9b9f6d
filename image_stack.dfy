/** Stack (stack.py:34-59): the images of one stack and the mosaic size read, once,
    from the header of the first of them. */
module ImageStack {
  import opened Outcomes

  /** The FITS header keywords holding the image width and height (stack.py:56-57). */
  const WidthKey: string := "NAXIS1"
  const HeightKey: string := "NAXIS2"

  /** What `limits` computes when nothing is cached (stack.py:55-58): the width and
      height from the primary header of the first image. With no image the subscript
      raises; an image whose header cannot be read, or a header without either keyword,
      raises too. */
  function ReadLimits(fileNames: seq<string>, headers: map<string, map<string, int>>): (r: Result<(int, int)>)
    ensures r == Err(IndexError) <==> fileNames == []
    ensures r.Ok? <==> fileNames != [] && fileNames[0] in headers &&
                       WidthKey in headers[fileNames[0]] && HeightKey in headers[fileNames[0]]
    ensures r.Ok? ==> r.value == (headers[fileNames[0]][WidthKey], headers[fileNames[0]][HeightKey])
  {
    if fileNames == [] then Err(IndexError)
    else if fileNames[0] !in headers then Err(FileNotFound)
    else
      var header := headers[fileNames[0]];
      if WidthKey !in header || HeightKey !in header then Err(KeyError)
      else Ok((header[WidthKey], header[HeightKey]))
  }

  class Stack {
    /** The image names the stack's pattern matches, in the order the directory lists them. */
    const fileNames: seq<string>
    /** The primary header of every readable image. */
    const headers: map<string, map<string, int>>
    /** `_limits`: None until the first successful read. */
    var cache: Option<(int, int)>

    /** A cached value is always the one a read would give. */
    ghost predicate Valid()
      reads this
    {
      cache.Some? ==> ReadLimits(fileNames, headers) == Ok(cache.value)
    }

    /** A stack with nothing cached (stack.py:38-46). */
    constructor (fileNames: seq<string>, headers: map<string, map<string, int>>)
      ensures Valid() && this.fileNames == fileNames && this.headers == headers && cache == None
    {
      this.fileNames := fileNames;
      this.headers := headers;
      cache := None;
    }

    /** `limits` (stack.py:52-59): the first call reads the header and caches the result;
        later calls return the cache. Either way the answer is the one a fresh read gives,
        and a failed read caches nothing. */
    method Limits() returns (r: Result<(int, int)>)
      requires Valid()
      modifies this
      ensures Valid()
      ensures r == ReadLimits(fileNames, headers)
      ensures cache == if r.Ok? then Some(r.value) else None
      ensures old(cache).Some? ==> cache == old(cache)
    {
      if cache.None? {
        if fileNames == [] {
          return Err(IndexError);
        }
        if fileNames[0] !in headers {
          return Err(FileNotFound);
        }
        var header := headers[fileNames[0]];
        if WidthKey !in header || HeightKey !in header {
          return Err(KeyError);
        }
        cache := Some((header[WidthKey], header[HeightKey]));
      }
      r := Ok(cache.value);
    }
  }
}
