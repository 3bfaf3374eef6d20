# ddsfs in Dafny

ddsfs is a FUSE filesystem. It mirrors a directory of scenery images. Where the directory holds
`name.jpg` or `name.webp` but no `name.dds`, it shows a `name.dds` as well. Opening that file
converts the image into a DirectDraw Surface with a full mip chain. The result is either DXT1/DXT5
blocks or 32-bit BGRA pixels. Under `cache=1` the converted file is written next to the image.
Under `cache=0` and `cache=N` (N >= 2) it is kept in an in-memory cache of open handles, which is
trimmed least recently used first. The older `xpfs` driver (xpfs.cpp, convert.cpp) does the same
for JPEG only. The `.xz` and `.gz` probes read sizes out of compressed containers.

The model is split into modules, one per part of the program:

- `PixelAverage` and `Halve` model the 2x2 box filter of halveimage.cpp (scalar path) over arrays of
  32-bit pixels.
- `DdsLayout` models the DDS header of ddsfs.h, the `poweroftwo` test and MINSIZE.
- `MipChain` models the level arithmetic shared by every converter: the size loops, the budgets and
  the emission loops.
- `Mipmaps` models the two ways a chain is emitted:
  - compressing halved copies (DXT converters);
  - halving in place, level after level, in the output buffer (RGB converters).
- `Conversion` holds what the converters share: the decoder result, the outcome and the header
  fields of a chain.
- `Jpg`, `Webp`, `Convert` and `XpfsDds` model `ddsfs_jpg_*`, `ddsfs_webp_*`, `xpfs_dds_*` and
  `xpfs_dds`. Each is a method proved equal to a function, plus lemmas that compare what the code
  budgets with what it writes.
- `SizeCache` models `dds_size` and the size memo (`sizecache_get` / `sizecache_set`).
- `CacheCommon`, `DdsfsCache` and `MemCache` model the handle caches:
  - the one written inline in ddsfs.cpp;
  - the refactored one of memcache.cpp.

  Both keep one invariant (`Kept`): every entry's reference count equals the number of handles
  bound to it, and every indexed path is on the LRU list. The list need not equal the index. Under
  `cache=0` a released path stays listed after it leaves the index, and opening it again lists it
  a second time. memcache.cpp's store also creates entries outside the index (`StoreOrphans`).
  Only for `cache=N` (N >= 2) does the list hold each path once and only indexed paths. ddsfs.cpp's
  cache also keeps every entry indexed (`Indexed`); memcache.cpp's does not.
- `Paths` models the extension rules of getattr, open and readdir, in ddsfs.cpp and xpfs.cpp.
- `Ddsfs` models `ddsfs_getattr` and `ddsfs_open` over the size memo and the handle cache.
- `FileBytes`, `Xz` and `Gzip` model the `.xz` and `.gz` probes.

## Model

| member | source | states |
|---|---|---|
| PixelAverage.Avg2Lanes | halveimage.cpp:14-16 | every 8-bit channel of `avg2(a, b)` is the floor of the mean of that channel of a and b (no carry crosses channels) |
| PixelAverage.Avg2Commutes | halveimage.cpp:14-16 | `avg2` is symmetric |
| PixelAverage.Avg2Idempotent | halveimage.cpp:14-16 | averaging a pixel with itself gives the pixel |
| PixelAverage.Avg4Lanes | halveimage.cpp:18-20 | every channel of `avg4` is the floor mean of the floor means of the two horizontal pairs |
| PixelAverage.Avg4Uniform | halveimage.cpp:18-20 | a uniform 2x2 block keeps its colour |
| Halve.Average2Rows | halveimage.cpp:22-27 | writes, at `out`, output pixel x = avg of columns 2x, 2x+1 of the two source rows, and changes nothing else in the destination |
| Halve.HalvePass | halveimage.cpp:51-53 | one pass of the halveimage loop adds output row k after the first k rows |
| Halve.HalveRows | halveimage.cpp:48-54 | after the loop the destination holds the halved image at `base` and is unchanged elsewhere |
| Halve.HalveImage | halveimage.cpp:48-54 | halveimage with `avg4`: the destination holds the halved image and nothing else changes |
| Halve.HalvedAt | halveimage.cpp:51-53 | output pixel (r, c) is the average of the 2x2 block at source rows 2r, 2r+1 and columns 2c, 2c+1 |
| DdsLayout.InitialHeader | jpg.cpp:104-111 | the header every converter starts from: magic "DDS ", dwSize 124, caps/height/width/pixel-format flags, texture cap |
| DdsLayout.FourCCFormat | jpg.cpp:124-129 | the block-compressed pixel format: dwSize 32, DDPF_FOURCC and the given FourCC |
| DdsLayout.RgbFormat | jpg.cpp:230-238 | the 32-bit BGRA pixel format with its masks and the given alpha mask |
| DdsLayout.WordsLayout | ddsfs.h:30-46 | the header's eight leading fields are words 0 to 7 and the eleven reserved words are zero |
| DdsLayout.FormatLayout | ddsfs.h:20-46 | the pixel format occupies words 19 to 26, dwFourCC is word 21, dwCaps word 27 |
| DdsLayout.HeaderImage | ddsfs.h:30-46 | the header's memory image is 128 bytes, and every word reads back from its offset |
| DdsLayout.ReadSerialized | jpg.cpp:134 | reading word i back from the little-endian image of a word array gives word i |
| DdsLayout.PowerOfTwoIff | ddsfs.h:48-50 | `poweroftwo(x)` holds exactly for x = 0 and the powers of two |
| MipChain.SizeLoop | jpg.cpp:113-118 | the size loop ends with `mips` the number of levels passing the guard and `totalsize` the header plus their bytes |
| MipChain.CountLoop | xpfs.cpp:134-135 | the counting loop ends with the number of levels passing the guard |
| MipChain.LevelsCount | jpg.cpp:115 | the counted levels are exactly the k whose level k passes the guard |
| MipChain.EmittedAbove | webp.cpp:115-128 | counting with `> t` finds one level fewer than the emission loop writes |
| MipChain.WrittenAbove | webp.cpp:115-128 | budgeting with `> t` misses exactly the bytes of the last level the emission loop writes |
| MipChain.AtLeastLevels | jpg.cpp:141-157 | for power-of-two edges counting with `>= t` gives exactly the number of levels emitted |
| MipChain.AtLeastBudget | jpg.cpp:113-118 | for power-of-two edges budgeting with `>= t` gives exactly the bytes emitted |
| MipChain.Pow2EvenChain | halveimage.cpp:51-53 | power-of-two edges halve evenly down to any threshold, so no pass reads a row past a level |
| Mipmaps.EmitDxt | jpg.cpp:137-157 | level 0 compressed, then every halved level compressed after the previous one (the DXT chain) |
| Mipmaps.DxtChainBytes | jpg.cpp:137-157 | with a compressor emitting the budgeted bytes per level, the chain takes what the emission loop writes |
| Mipmaps.ChainBytes | jpg.cpp:267-278 | a 32-bit chain takes four bytes per pixel of every emitted level |
| Mipmaps.HalveLevel | jpg.cpp:269-276 | one pass halves the level right before `pos` into the words from `pos`, keeping the loop invariant |
| Mipmaps.HalveInPlace | jpg.cpp:267-278 | the in-place loop leaves the whole level chain after level 0 in the buffer and changes nothing else |
| Mipmaps.TailNext | jpg.cpp:269-275 | after a level above the threshold the chain continues with that level's halving |
| Conversion.WithMips | jpg.cpp:120-122 | the mip-map flag, count and caps are added; every other field is kept |
| Conversion.ChainHeader | convert.cpp:98-122 | the older converters' header sets the mip-map flag and caps from the start |
| Conversion.ChainHeaderIsWithMips | convert.cpp:98-122 | that header equals the newer converters' initial header with the mip fields added |
| Conversion.Put | convert.cpp:133-137 | a write places its bytes at the offset and keeps the bytes before and after |
| Conversion.PutGap | convert.cpp:133-138 | the write past the end, then the write up to it, leave the three parts in order |
| Conversion.HeaderAtFront | jpg.cpp:134-135 | the first 32 words of a conversion's bytes are the header's: magic, dwSize, dwFlags, dwMipMapCount, dwFourCC, dwCaps |
| Conversion.PowerOfTwoChain | jpg.cpp:80-85 | edges passing `poweroftwo` are powers of two and halve evenly |
| Conversion.DecodeAndHalve | jpg.cpp:248-278 | level 0 decoded into the buffer, then, when levels were counted, the in-place chain |
| Jpg.JpgRgbOf | jpg.cpp:174-291 | fails exactly when the image does not decode; otherwise allocates `totalsize + 16` bytes with the BGRA format |
| Jpg.JpgRgb | jpg.cpp:174-291 | the converter computes exactly JpgRgbOf |
| Jpg.JpgDxt1Of | jpg.cpp:49-171 | fails exactly when the image does not decode; edges that are not powers of two delegate to the RGB converter (on the same `Decoded`, channel order abstract); otherwise DXT1 in a buffer of `totalsize` |
| Jpg.JpgDxt1 | jpg.cpp:49-171 | the converter computes exactly JpgDxt1Of |
| Jpg.JpgDxt1Exact | jpg.cpp:113-157 | power-of-two edges of at least MINSIZE: dwMipMapCount is the number of levels written and the bytes written fill `totalsize` exactly |
| Jpg.JpgDxt1Small | jpg.cpp:113-139 | an edge below MINSIZE: `totalsize` is the bare header, yet level 0 is written past it whenever it has two pixels or more |
| Jpg.JpgDxt1Header | jpg.cpp:104-129 | the header bytes carry magic, dwSize 124, flags 0x21007, FourCC "DXT1" and caps 0x401008 |
| Jpg.JpgDxt1Of256 | jpg.cpp:113-118 | a 256 x 256 image gives five levels and 43776 bytes |
| Jpg.JpgRgbExact | jpg.cpp:214-278 | power-of-two edges of at least MINSIZE: the chain ends exactly at `totalsize` and nothing overruns |
| Jpg.JpgRgbFlat | jpg.cpp:225-227 | other edges: one level of w * h * 4 bytes, with no mip-map flag or caps |
| Jpg.JpgRgbOf300x200 | jpg.cpp:225-227 | a 300 x 200 image gives 240128 bytes |
| Jpg.JpgRgbSmall | jpg.cpp:214-257 | an edge below MINSIZE: the 16 spare bytes absorb level 0 only up to four pixels |
| Webp.WebpRgbOf | webp.cpp:196-315 | fails exactly when the image does not decode; allocates `totalsize + 16` with the alpha mask set for images with alpha |
| Webp.WebpRgb | webp.cpp:196-315 | the converter computes exactly WebpRgbOf |
| Webp.WebpDxtOf | webp.cpp:53-193 | non-power-of-two edges delegate to the RGB converter (on the same `Decoded`, channel order abstract); otherwise DXT5 with alpha, DXT1 without, in a buffer of `totalsize` |
| Webp.WebpDxt | webp.cpp:53-193 | the converter computes exactly WebpDxtOf |
| Webp.WebpDxtLevels | webp.cpp:115-132 | dwMipMapCount is the number of levels the emission loop writes |
| Webp.WebpDxtShortfall | webp.cpp:115-181 | `totalsize` misses the last level, which the compressors write past the buffer |
| Webp.WebpDxt256 | webp.cpp:115-128 | a 256 x 256 image without alpha announces six levels in 43776 bytes |
| Webp.WebpDxt256Overrun | webp.cpp:161-181 | ... and its 8 x 8 level's 32 bytes are written past the buffer |
| Webp.WebpRgbShortfall | webp.cpp:238-303 | power-of-two edges as RGB: one level more is written than budgeted, overrunning once it exceeds the 16 spare bytes |
| Webp.WebpRgbFlat | webp.cpp:250-253 | other edges: one level of w * h * 4 bytes, no mip-map flag or caps |
| Convert.ConvertDxt1Of | convert.cpp:51-169 | fails exactly when the image does not decode; DXT1 format, dwMipMapCount the `>= 8` count, returned length equal to the final buffer size |
| Convert.ConvertDxt1 | convert.cpp:51-169 | the converter computes exactly ConvertDxt1Of |
| Convert.ConvertDxt1Exact | convert.cpp:106-157 | power-of-two edges of at least 8, when `realloc` keeps the block in place: the chain, then a second copy of level 0, fill the grown buffer exactly |
| Convert.ConvertDxt1Small | convert.cpp:106-137 | an edge below 8 counts no levels, so the first allocation is the bare header, yet level 0 (w * h / 2 bytes) is copied after it before the `realloc`: that write runs past the block exactly when w * h >= 2; the returned length is the grown one |
| Convert.ConvertRgbOf | convert.cpp:172-281 | fails exactly when the image does not decode; BGRA format in a buffer of `totalsize` |
| Convert.ConvertRgb | convert.cpp:172-281 | the converter computes exactly ConvertRgbOf |
| Convert.ConvertRgbExact | convert.cpp:211-269 | power-of-two edges of at least 8: the chain fills the buffer exactly |
| Convert.ConvertRgbSmall | convert.cpp:211-249 | an edge below 8: the buffer is the bare header and level 0 overruns it |
| XpfsDds.XpfsDdsOf | xpfs.cpp:79-190 | a file is written exactly when the image decodes and the destination opens; its header counts the `> 8` levels plus one |
| XpfsDds.XpfsDds | xpfs.cpp:79-190 | the converter computes exactly XpfsDdsOf |
| XpfsDds.XpfsDdsLevels | xpfs.cpp:134-178 | dwMipMapCount is the number of levels written, and the file holds the header and exactly those levels |
| SizeCache.CHalf | sizecache.cpp:29 | C division by 2, truncated toward zero |
| SizeCache.DdsSize | sizecache.cpp:13-33 | non-power-of-two edges give w * h * 4; otherwise the header plus the formula, scaled to DXT5, DXT1 or RGBA |
| SizeCache.DdsSizeEven | sizecache.cpp:13-33 | every estimate is even, so none is mistaken for the memo's -1 |
| SizeCache.DdsSizeNegative | sizecache.cpp:25 | the estimate goes negative when one edge is below MINSIZE and the other above: 8 x 32 as DXT1 gives -128 |
| SizeCache.LoopPixels | sizecache.cpp:16-22 | the commented-out loop counts at least level 0 when both edges reach MINSIZE, nothing otherwise |
| SizeCache.FormulaIsNotTheLoop | sizecache.cpp:16-25 | the formula does not sum the chain (256 x 256: 230400 against 87296) |
| SizeCache.EstimateMissesHeader | sizecache.cpp:14 | for non-power-of-two edges the estimate is the converters' length minus the 128-byte header |
| SizeCache.EstimateAt256 | sizecache.cpp:25-29 | 256 x 256 DXT1: estimate 115328, conversion 43776 |
| SizeCache.EstimateAt16 | sizecache.cpp:25-29 | 16 x 16 DXT1: estimate 128, conversion 256 |
| SizeCache.SizeMemo.Get | sizecache.cpp:35-43 | the stored size, or -1 for a name never set |
| SizeCache.SizeMemo.Set | sizecache.cpp:45-48 | the name maps to the new size, every other name keeps its size |
| CacheCommon.Wrap | ddsfs.cpp:349-350 | the counter steps by one and wraps from past 1000000 back to 100 |
| CacheCommon.DistStep | ddsfs.cpp:348-351 | a counter step brings every other id one step closer |
| CacheCommon.NextFree | ddsfs.cpp:348-351 | the handle id chosen is unbound, in range, the first such from the counter on, and the counter is just past it |
| CacheCommon.FirstIndex | ddsfs.cpp:314-319 | the position of the first occurrence of the name, or the length of the list |
| CacheCommon.FindName | ddsfs.cpp:314-319 | the search loop stops at the first occurrence of the name |
| CacheCommon.Refreshed | ddsfs.cpp:313-321 | the list without the name's first occurrence, with the name appended |
| CacheCommon.RefreshedOnce | ddsfs.cpp:313-321 | the name ends up once, at the tail, the other paths in their old order |
| CacheCommon.RefreshedNoDup | ddsfs.cpp:313-321 | a list without duplicates stays without duplicates |
| CacheCommon.Evictable | ddsfs.cpp:293-303 | the scan stops at the first path that is not indexed or has no references |
| CacheCommon.Scan | ddsfs.cpp:293-303 | the inner loop of the tidy finds that position |
| CacheCommon.Evict | ddsfs.cpp:305-310 | the evicted entry leaves the heap and the index, and its path leaves the list |
| CacheCommon.Trimmed | memcache.cpp:61-87 | what `lru_tidy` leaves, or failure where `memindex->at` throws on an unindexed path; ddsfs.cpp:287-312 runs the same scan, and there the failure never arises (`TrimmedKeeps`, under `Indexed` and a limit of at least 2) |
| CacheCommon.CountBind | ddsfs.cpp:353-354 | binding a handle counts one more holder of that entry only |
| CacheCommon.CountUnbind | ddsfs.cpp:497-500 | unbinding counts one holder fewer of that entry only |
| CacheCommon.Hit | ddsfs.cpp:353-355 | a hit adds a reference to the entry and refreshes its path |
| CacheCommon.HitKeeps | ddsfs.cpp:345-358 | a hit keeps the invariant: references equal bound handles |
| CacheCommon.Added | ddsfs.cpp:426-429 | a new entry with one reference, indexed and appended to the list |
| CacheCommon.AddedKeeps | ddsfs.cpp:424-429 | that insert keeps the invariant |
| CacheCommon.Stored | memcache.cpp:135-143 | a new entry with one reference, indexed only if the path was not already, and refreshed |
| CacheCommon.StoredKeeps | memcache.cpp:135-143 | that store keeps the reference-count invariant |
| CacheCommon.Released | ddsfs.cpp:490-500 | under CACHE_NONE the last reference frees the entry and unindexes it; otherwise one reference fewer |
| CacheCommon.ReleasedKeeps | ddsfs.cpp:490-500 | releasing keeps the invariant |
| CacheCommon.EvictKeeps | ddsfs.cpp:305-310 | evicting the entry the scan found keeps the invariant (no handle holds it) |
| CacheCommon.TrimmedKeeps | ddsfs.cpp:287-312 | trimming keeps the invariant and never throws on a trimmed list |
| CacheCommon.TrimmedEvictsUnreferenced | ddsfs.cpp:292-310 | trimming frees only entries without references and changes no other entry |
| CacheCommon.TrimmedStops | ddsfs.cpp:292-303 | trimming ends within the limit or with every listed path indexed and referenced |
| CacheCommon.InsertedKeepsEntry | ddsfs.cpp:426-430 | the tidy after an insert keeps the new entry, with its bytes and one reference |
| CacheCommon.Clamp | ddsfs.cpp:465-471 | a read returns the bytes from the offset on, at most `size` of them, or flags an offset past the end |
| DdsfsCache.HandleCache.Tidy | ddsfs.cpp:287-312 | `tidycache` leaves the trimmed cache and keeps the invariant |
| DdsfsCache.HandleCache.Lookup | ddsfs.cpp:343-360 | a cached path gets a fresh handle bound to its entry; a miss changes nothing |
| DdsfsCache.HandleCache.Insert | ddsfs.cpp:409-434 | the re-check binds to an existing entry and drops the new bytes; otherwise it adds the entry and tidies |
| DdsfsCache.HandleCache.Add | ddsfs.cpp:424-431 | the insert branch for a new path: bound, indexed, listed, tidied |
| CacheCommon.ReadHandle | memcache.cpp:149-165 | not cached exactly when the handle is unbound; otherwise the bound entry's bytes, clamped |
| DdsfsCache.HandleCache.Read | ddsfs.cpp:459-474 | the memory branch of `ddsfs_read` is ReadHandle over the cache's handles: not cached exactly when the handle is unbound |
| DdsfsCache.HandleCache.Release | ddsfs.cpp:484-507 | handle 0 is ignored; a bound handle is unbound and its entry released; any other handle is closed |
| DdsfsCache.BindHit | ddsfs.cpp:418-423 | the hit branch binds the handle, adds a reference and refreshes, keeping the invariant |
| DdsfsCache.RacingInserts | ddsfs.cpp:417-432 | two racing opens of one path leave one entry with the first bytes and two references |
| MemCache.MemoryCache.LruTidy | memcache.cpp:61-87 | the trimmed cache, or failure where `memindex->at` throws |
| MemCache.MemoryCache.LruHit | memcache.cpp:88-102 | the path is refreshed, then the list is tidied |
| MemCache.MemoryCache.NextFd | memcache.cpp:108-115 | the first unbound id from the counter on, wrapping, and the counter just past it |
| MemCache.MemoryCache.GetFd | memcache.cpp:117-133 | 0 and no change on a miss; a fresh handle, one more reference and an LRU hit on a hit |
| MemCache.MemoryCache.Store | memcache.cpp:135-147 | a new entry bound to a fresh handle, indexed only if the path was not, then an LRU hit |
| MemCache.MemoryCache.Read | memcache.cpp:149-165 | `memcache_read` is ReadHandle over the cache's handles: -1 exactly for an unbound handle |
| MemCache.MemoryCache.Release | memcache.cpp:167-187 | returns 1 iff the handle was bound; it is unbound and its entry released |
| MemCache.StoreOrphans | memcache.cpp:141-142 | storing an indexed path leaves the new entry reachable only through its handle |
| MemCache.OrphanStays | memcache.cpp:61-87 | an entry that no index names survives every tidy, so it is never freed |
| MemCache.NoneBreaksTidy | memcache.cpp:173-176 | under CACHE_NONE a released path stays listed, and the next store's tidy throws on it |
| Paths.LastDot | ddsfs.cpp:147 | no dot, or the position of the last dot |
| Paths.Swap | ddsfs.cpp:150 | the stem up to the last dot, followed by the new extension |
| Paths.Suffixed | ddsfs.cpp:149-150 | a path ending in a suffix has that suffix as its extension, and swapping replaces it |
| Paths.SwapTwice | ddsfs.cpp:364-378 | swapping keeps the stem and the last dot; swapping twice is swapping once |
| Paths.Alternates | ddsfs.cpp:364-378 | the `.jpg` path, then the `.webp` path |
| Paths.DdsfsGetattr | ddsfs.cpp:144-186 | an existing path; for a missing `.dds`, the first existing alternate; otherwise errno of the last failed lstat |
| Paths.DdsfsOpenSource | ddsfs.cpp:333-388 | as getattr, except that a `.dds` with no alternate gives -ENOENT |
| Paths.GetattrAgreesWithOpen | ddsfs.cpp:147-185 | getattr and open pick the same image for a missing `.dds` |
| Paths.DdsfsListedFor | ddsfs.cpp:231-277 | the entry, then its `.dds` twin with the remembered size when a `.jpg`/`.webp` has no real twin |
| Paths.ListingHasEntries | ddsfs.cpp:231-232 | every directory entry is listed under its own name |
| Paths.DdsfsReaddir | ddsfs.cpp:225-278 | the loop lists exactly DdsfsListing of the entries |
| Paths.ListedJpgResolves | ddsfs.cpp:243-257 | a twin listed for a lower-case `.jpg` resolves to that `.jpg` in getattr and open |
| Paths.UpperCaseJpgListed | ddsfs.cpp:243-250 | `.JPG` counts as `.jpg` for the listing |
| Paths.UpperCaseJpgListedButMissing | ddsfs.cpp:243-255 | `a.dds` is listed for `a.JPG` but getattr fails and open gives -ENOENT |
| Paths.XpfsGetattr | xpfs.cpp:201-212 | a missing `.dds` or `.png` is looked up as the `.jpg` |
| Paths.XpfsOpenSource | xpfs.cpp:275-295 | only a missing `.dds` is converted, from the `.jpg` |
| Paths.XpfsPngNotOpened | xpfs.cpp:205-209 | a `.png` reports the `.jpg`'s attributes but cannot be opened |
| Paths.XpfsListedFor | xpfs.cpp:239-257 | the entry, then its `.dds` twin for a `.jpg` without a real twin |
| Paths.XpfsReaddir | xpfs.cpp:232-258 | the loop lists exactly XpfsListing of the entries |
| Ddsfs.Getattr | ddsfs.cpp:135-189 | existing size; remembered size; estimate when `config.size` (remembered under the image's path); or the image's size |
| Ddsfs.OpenCached | ddsfs.cpp:323-443 | a cached `.dds` is served first; otherwise the conversion is inserted and its length remembered; errors as the C code returns them |
| Ddsfs.OpenDisk | ddsfs.cpp:390-407 | under CACHE_DISK the converted bytes become a real file next to the image |
| Ddsfs.Disk.Write | ddsfs.cpp:392-400 | the file is created with the bytes, or open fails with -errno of that path |
| Ddsfs.OpenKeyIsNotGetattrKey | ddsfs.cpp:431 | open remembers the size under the `.dds` path, which is never the image path getattr reads |
| Ddsfs.ListingFindsOpenSize | ddsfs.cpp:251-254 | below the root, readdir finds the size open remembered |
| Ddsfs.RootListingMissesOpenSize | ddsfs.cpp:251-254 | at the root the test path has a double slash and the size is not found |
| FileBytes.Window | xz.cpp:84 | the n bytes a read at an offset leaves in a buffer (zero past the end of the file) |
| FileBytes.ToInt32 | xz.cpp:93 | storing an unsigned value into an `int` keeps its low 32 bits |
| Xz.DecodeOf | xz.cpp:45-63 | `*num` stays below 2^63 whenever `size_max` is positive |
| Xz.DecodeOfAccepts | xz.cpp:45-63 | 0 for `size_max == 0` or a malformed integer; otherwise its length, with its value in `*num` |
| Xz.Decode | xz.cpp:45-63 | the loop of `decode` computes DecodeOf |
| Xz.DecodeReadsWithinCap | xz.cpp:49-56 | `decode` reads no byte past the cap |
| Xz.EncodeBytes | xz.cpp:55-56 | the minimal encoding has the continuation bits and nonzero bytes decode accepts |
| Xz.EncodeValue | xz.cpp:59 | the encoding spells its value |
| Xz.DecodeEncode | xz.cpp:45-63 | decode reads back every value below 2^63 from its encoding, whatever follows |
| Xz.XzHeader | xz.cpp:66-100 | succeeds exactly on the magic and flag 0x80, with an int32 size |
| Xz.BlockHeaderLength | xz.cpp:82 | the block header length is a positive multiple of four |
| Xz.SizeField | xz.cpp:86-91 | the size read from the block header is below 2^63 |
| Xz.SizeFieldEncoded | xz.cpp:89-91 | an encoded size, after an encoded compressed size when flagged, reads back |
| Xz.XzHeaderReportsSize | xz.cpp:66-100 | a block header holding an encoded size v makes the probe report v as an int |
| Xz.XzHeaderReadsBlockHeaderOnly | xz.cpp:70-84 | the probe reads only the stream header and the block header |
| Xz.XzHeaderKeepsRejectedSize | xz.cpp:89-94 | a size field that `decode` rejects is still reported (0x85 0x00 gives 5) |
| Gzip.TrailerOffset | gzip.cpp:48 | the size read starts four bytes before the end, or at offset 2 when the seek fails |
| Gzip.GzipHeader | gzip.cpp:36-52 | fails unless the ID bytes are 31, 139; otherwise the last four bytes as a 32-bit `int` |
| Gzip.GzipHeaderIgnoresOtherBytes | gzip.cpp:41-49 | only the ID bytes and the trailer matter |
| Gzip.FooterOffset | gzip.cpp:64 | the footer read starts eight bytes before the end, or at 0 when the seek fails |
| Gzip.Isize | gzip.cpp:63-65 | the footer's length field: the last four bytes, or bytes 4 to 7 of a short file |
| Gzip.DdsfsGzip | gzip.cpp:56-93 | fails exactly when open, gzdopen or gzclose fails; the buffer has ISIZE bytes, zlib's output at its front |
| Gzip.HeaderSizeIsAllocation | gzip.cpp:48-76 | on files of eight bytes or more the probe reports the allocation size |
| Gzip.ShortFileSizesDisagree | gzip.cpp:48-65 | on a seven-byte file the two reads disagree (0x100 against 1) |

## Left out

- The FUSE plumbing is not modelled: option parsing, `main`, `ddsfs_access` and the callbacks that only forward to the real file.
- Real file I/O is not modelled. The mounted directory is a set or map of paths; `errno` is named by the path whose call failed (`AttrErr`, `OpenErr`, `Errno`). One exception: when a header or decoder call fails on an image that opened fine, C returns `-errno` with a stale value, typically the one left by the failed `lstat` or `open` of the `.dds` path. The model writes that case as `AttrErr(src)` or `OpenErr(src)`, and there the name stands for that stale value, not for a failed call on `src`.
- The image decoders and block compressors are parameters: turbojpeg, libwebp and libdxt (`CompressImageDXT1/5`). So are zlib and the decoders' header calls (`ddsfs_jpg_header`, `ddsfs_webp_header`).
- `ddsfs_xz` is left out. It is the liblzma decode loop, which the model cannot see. Only `decode` and `ddsfs_xz_header` are modelled.
- xpfs.h is not part of this model. Its declarations duplicate ddsfs.h.
- The SSE branch of `average2Rows` is left out. `_mm_avg_epu8` rounds up where `avg2` rounds down, so it is not the scalar filter. Only the scalar path is modelled.
- Locks are not modelled (`cachelock`, `lrulock`). Each cache method is one atomic step, as the locks make it.
- Debug output and timing are left out.
- Memory-unsafe behaviour is described, not executed. Writes past a converter's allocation are reported by `Overruns` and by the lemmas (`JpgDxt1Small`, `JpgRgbSmall`, `ConvertRgbSmall`, `ConvertDxt1Small`, `WebpDxtShortfall`, `WebpRgbShortfall`). Writes past a path buffer are not modelled; the one known case is listed under `Ddsfs.Getattr` below. Reads past a level with an odd height are excluded by preconditions, listed below.
- Halve.HalveImage: requires an even height. For an odd height the last pass reads the row past the image, which has no defined value.
- Jpg.JpgDxt1Of: the channel order of the decoded pixels is left abstract. The DXT branch decodes as RGBA (jpg.cpp:88). The fallback for edges that are not powers of two reopens the file and decodes it as BGRA (jpg.cpp:84, 248). The model passes one `Decoded` to both, so it does not state which channel lands under which mask. No proved property depends on it, because `Avg4` works channel by channel and the compressors are parameters. The same holds for Jpg.JpgDxt1 and for Webp.WebpDxtOf and Webp.WebpDxt (WebPDecodeRGBAInto at webp.cpp:93 against WebPDecodeBGRAInto at webp.cpp:274).
- Ddsfs.OpenCached: the converter parameters' bytes are the first `len` bytes of `*dst`, the length recorded in the cache and the size memo. They are not tied to the converter functions of `Jpg` and `Webp`. The same holds for Ddsfs.OpenDisk and Ddsfs.Getattr.
- Convert.ConvertDxt1Of: `realloc` at convert.cpp:136 is assumed to keep the block in place. When it moves the block, the halved levels are written through the stale `dstpos` into the freed block. The buffer returned then holds the header, level 0, uninitialised bytes and the copy. The same holds for Convert.ConvertDxt1 and Convert.ConvertDxt1Exact.
- Convert.ConvertDxt1Of: `alloc` records only the grown block. The copy of level 0 written before the `realloc`, past the first block when an edge is below 8, is stated separately by `Convert.ConvertDxt1Small`.
- Convert.ConvertDxt1Of: requires edges that halve evenly down to 8 (`Halvable`). Otherwise a pass reads past the level. The same holds for Convert.ConvertDxt1, Convert.ConvertRgbOf and Convert.ConvertRgb.
- XpfsDds.XpfsDdsOf: requires `Halvable` for the same reason. The same holds for XpfsDds.XpfsDds.
- Conversion.Valid: positive `int` dimensions are assumed of a decoded header. 32-bit overflow of `width * height * 4` is not modelled, nor is a `totalsize` beyond `int`.
- SizeCache.DdsSize: requires edges below 2^31, the range of the C `int`. Overflow of the formula's product is not modelled.
- Ddsfs.OpenCached: requires a free handle id. With all 999901 ids bound the C search loop never ends. The same holds for DdsfsCache.HandleCache.Lookup, DdsfsCache.HandleCache.Insert, MemCache.MemoryCache.GetFd and MemCache.MemoryCache.Store.
- Ddsfs.OpenCached: a failed `open` of an existing path is not modelled; it is served as `Direct`.
- Ddsfs.OpenDisk: a failed `open` of an existing path is not modelled. The reopen after the write is folded into `creatable`, and the write is a full write.
- `ddsfs_read` and `ddsfs_release` on a real file descriptor (`pread`, `close`) are left out. Only their cache branches are modelled (`Read`, `Release`).
- Paths are compared as strings. `rwpath` is the base path followed by the FUSE path; nothing is normalised.
- Paths.DdsfsReaddir: models a `filler` that never reports a full buffer. The early `break` is left out, and so is an `opendir` failure. The same holds for Paths.XpfsReaddir.
- Xz.Decode: `*num |= group << 7i` is modelled as addition. This is exact because every group lies above the bits already set, and `Decode` proves it.
- FileBytes.Window: bytes past the end of a short read are zero. The C code leaves them as whatever the buffer held. This affects `Xz.XzHeader`, `Gzip.GzipHeader` and `Gzip.Isize`.
- Xz.SizeField: both `decode` calls at xz.cpp:89-91 have a cap of nine bytes, but `headerdata` holds only `len - 2` bytes (xz.cpp:83). On a short block header C reads past the stack array; the model reads zeros there.
- Gzip.DdsfsGzip: the part of the buffer zlib does not fill is zero. In C it is uninitialised.
- Gzip.GzipHeader: on a failed open the caller's `*size` is kept; the model returns `None` only.
- Gzip.HeaderSizeIsAllocation: states the agreement for files of eight bytes or more. Shorter files disagree (`ShortFileSizesDisagree`).
- Ddsfs.Getattr: `rwpath` holds `strlen(basepath) + strlen(path) + 1` bytes (ddsfs.cpp:138). `strcpy(ext, ".webp")` at ddsfs.cpp:167 writes six bytes over the five of `.dds` and its terminator, so one byte lands past the array. The model treats paths as unbounded strings and does not capture this write. The same holds for Paths.DdsfsGetattr. `ddsfs_open` sizes its `srcpath` two bytes larger (ddsfs.cpp:339) and does not overrun.
- Ddsfs.Getattr: the header calls `ddsfs_jpg_header` and `ddsfs_webp_header` are parameters. JPEG estimates use `alpha = 0`, as the default argument does.
