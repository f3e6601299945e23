# BlurHash integer skeleton in Dafny

This project models the text-token layer of the Python BlurHash codec in
`blurhash/blurhash.py`. A BlurHash is a short string of base-83 symbols laid
out as follows:

- one size symbol, `(components_x - 1) + (components_y - 1) * 9`;
- one symbol for the quantised maximum AC magnitude;
- four symbols for the DC colour, packed as `(R << 16) + (G << 8) + B`;
- two symbols per AC term, packed as the base-19 triple `R * 361 + G * 19 + B`.

The model covers five parts of the codec:

- the base-83 codec, `base83_decode` and `base83_encode`;
- the header read by `blurhash_components`;
- the integer part of both decoders (`blurhash_decode` and `blurhash_fake_decode`): length checks, DC and AC unpacking;
- the swatch decoder's tile row and column;
- the encoder's component-count check and its hash build.

Modules, one per file:

- `Results` (results.dfy): the `Result` and `Option` wrappers. Each Python exception becomes an `Error` case:
  - a `KeyError` at the alphabet lookup becomes `UnknownSymbol(c)`;
  - the `ValueError` of `base83_encode` becomes `ValueTooLong`;
  - an `IndexError` on `blurhash[0]` or `blurhash[1]` becomes `MissingCharacter`;
  - the encoder's `ValueError` becomes `InvalidComponentCount`;
  - the decoder's two length `ValueError`s become `HashTooShort` and `HashLengthMismatch`.
- `DivMod`, `Seqs` (divmod.dfy, seqs.dfy): arithmetic and slicing facts used by the proofs.
- `Base83` (base83.dfy):
  - the alphabet and its lookup table;
  - the specification functions `Decoded` and `Encoded`;
  - the codec's two loops as the methods `Decode` and `Encode`, each proved equal to its function.
- `Packing` (packing.dfy): the size symbol, DC and AC packings and their unpackings.
- `Layout` (layout.dfy):
  - `Parse` and `ParseSwatch`, the integer layer of the dense and swatch decoders;
  - `Assemble`, the encoder's hash build;
  - the round-trip, injectivity, acceptance and rejection lemmas.
- `Codec` (codec.dfy): the decoders and the hash build as the step-by-step loops of the source, each proved equal to its `Layout` function. Also the encoder entry point with its component-count check.
- `Swatch` (swatch.dfy): the tile formula of the swatch decoder, proved to be row-major order.
- `Witnesses` (witnesses.dfy): concrete hashes and fields at the edges of the format.

The floating-point stages sit before and after the integer layer: colour conversion, the cosine transform and quantisation. They are not modelled. The encoder's integer stage takes as input the quantised, clamped indices those stages produce.

Python's `int(a / b)` and `math.ceil(c / size_x)` act here on small non-negative integers. Their quotients are far from any rounding trouble, so they are modelled as Dafny's integer floor division and ceiling division.

## Model

| member | source | states |
|---|---|---|
| Base83.Value | blurhash/blurhash.py:19-20 | a character's value, when it has one, is below 83 |
| Base83.ValueIsIndex | blurhash/blurhash.py:19-20 | a character has a value exactly when it is in the alphabet, and its value is its position there |
| Base83.AlphabetSymbols | blurhash/blurhash.py:19 | the alphabet has 83 symbols; position d holds the symbol of digit d |
| Base83.ValueOfSymbol | blurhash/blurhash.py:19-20 | looking up the symbol of digit d gives d back |
| Base83.SymbolOfValue | blurhash/blurhash.py:19-20 | a character with a value is the symbol of that digit |
| Base83.Decoded | blurhash/blurhash.py:23-30 | a decoded value is below 83^n for n symbols |
| Base83.DecodedAccepts | blurhash/blurhash.py:27-30 | decoding succeeds exactly when every character is in the alphabet |
| Base83.DecodedFirstError | blurhash/blurhash.py:28-29 | decoding stops at the first character outside the alphabet and reports that character |
| Base83.DecodedSnoc | blurhash/blurhash.py:28-29 | appending a symbol multiplies the value by 83 and adds the symbol's value (Horner's rule) |
| Base83.DecodedSymbol | blurhash/blurhash.py:29 | a single character decodes exactly when it has a value, and decodes to that value |
| Base83.DecodedInjective | blurhash/blurhash.py:23-30 | two numerals of the same length with the same value are equal |
| Base83.Decode | blurhash/blurhash.py:23-30 | the decoding loop returns what `Decoded` specifies, errors included |
| Base83.Numeral | blurhash/blurhash.py:43-47 | the digit string has exactly the requested length |
| Base83.Encoded | blurhash/blurhash.py:33-47 | encoding succeeds exactly when 0 <= value < 83^length; otherwise the error is ValueTooLong; the result has exactly `length` symbols |
| Base83.EncodedOverflow | blurhash/blurhash.py:40-41 | the source's test `value // 83^length != 0` is exactly the failure condition of encoding |
| Base83.EncodedRoundTrip | blurhash/blurhash.py:23-47 | for 0 <= v < 83^n, decoding the n-symbol encoding of v gives v |
| Base83.NumeralRoundTrip | blurhash/blurhash.py:43-47 | decoding the n-digit numeral of v < 83^n gives v |
| Base83.DecodedRoundTrip | blurhash/blurhash.py:23-47 | every decodable string is the numeral of its own value at its own length |
| Base83.EncodedInverse | blurhash/blurhash.py:23-47 | encoding a decodable string's value at its length gives the string back |
| Base83.Encode | blurhash/blurhash.py:33-47 | the encoding loop, overflow check included, returns what `Encoded` specifies |
| Packing.SizeRoundTrip | blurhash/blurhash.py:425 | for a grid in [1,9] x [1,9] the size value is below 81 and reads back as the same grid |
| Packing.GridSizeRange | blurhash/blurhash.py:83-85 | any symbol gives size_x in [1,9] and size_y in [1,10]; size_y is 10 exactly for values 81 and 82; below 81, packing the grid gives the value back |
| Packing.GridSizeInjective | blurhash/blurhash.py:110-112 | distinct size values read as distinct grids |
| Packing.DcRoundTrip | blurhash/blurhash.py:371-375 | three bytes pack below 2^24 <= 83^4, and the shifts and masks recover the bytes |
| Packing.DcCanonical | blurhash/blurhash.py:125-127 | a value unpacks to three bytes exactly when it is below 2^24, and then it packs back to itself |
| Packing.DcFieldBounds | blurhash/blurhash.py:122-127 | any 4-symbol DC field unpacks to red at most 724 (the shift is not masked), green and blue at most 255 |
| Packing.UnpackDcInjective | blurhash/blurhash.py:125-127 | distinct DC values unpack to distinct triples |
| Packing.AcRoundTrip | blurhash/blurhash.py:384-421 | digits in [0,18] pack below 19^3 = 6859 <= 83^2, and the divisions recover the digits |
| Packing.AcCanonical | blurhash/blurhash.py:136-140 | a value unpacks to digits in [0,18] exactly when it is below 6859, and then it packs back to itself |
| Packing.AcFieldBounds | blurhash/blurhash.py:133-140 | any 2-symbol AC field unpacks to a first digit of at most 19 and two digits of at most 18 |
| Packing.UnpackAcInjective | blurhash/blurhash.py:136-140 | distinct AC values unpack to distinct triples |
| Layout.Components | blurhash/blurhash.py:77-87 | a grid read from the first symbol is within [1,9] x [1,10] |
| Layout.ComponentsOf | blurhash/blurhash.py:77-87 | a hash that starts with the encoded size value of a grid in [1,9] x [1,9] reads back as that grid |
| Layout.AcFields | blurhash/blurhash.py:132-142 | reading count AC fields gives count terms |
| Layout.AcFieldsSnoc | blurhash/blurhash.py:132-142 | one more decodable field appends its unpacked digits to the terms read so far |
| Layout.AcFieldsError | blurhash/blurhash.py:132-133 | the first AC field that fails to decode is the error of the whole AC read |
| Layout.AcFieldsUnsnoc | blurhash/blurhash.py:132-142 | the terms of count fields are those of count - 1 fields followed by the unpacking of field count |
| Layout.AcFieldsAccepts | blurhash/blurhash.py:132-133 | the AC fields decode exactly when all their symbols are in the alphabet |
| Layout.AcFieldsBounds | blurhash/blurhash.py:132-140 | every AC term read has a first digit of at most 19 and two digits of at most 18 |
| Layout.AcFieldsInjective | blurhash/blurhash.py:132-133 | two hashes whose AC fields read back the same terms have the same AC symbols |
| Layout.AcText | blurhash/blurhash.py:428-429 | encoded AC text is two symbols per term |
| Layout.AcTextEncodes | blurhash/blurhash.py:428-429 | with every digit in [0,18], every AC term encodes |
| Layout.AcTextSnoc | blurhash/blurhash.py:428-429 | encoding one more term appends its two symbols |
| Layout.AcTextUnsnoc | blurhash/blurhash.py:428-429 | the AC text of a longer sequence ends in the two symbols of its last term |
| Layout.AcTextError | blurhash/blurhash.py:428-429 | an AC term that fails to encode makes the whole build fail with ValueTooLong |
| Layout.AcFieldsOfText | blurhash/blurhash.py:132-133 | AC symbols that encode terms with digits in [0,18] are read back as those terms |
| Layout.ParseBodyOf | blurhash/blurhash.py:114-142 | once the grid is known, a hash whose fields decode to the packings of well-formed fields is read back as those fields |
| Layout.ParseOfFields | blurhash/blurhash.py:106-142 | a hash carrying the packings of well-formed fields is read back as those fields by both decoders |
| Layout.AssembleWellFormed | blurhash/blurhash.py:424-431 | well-formed fields assemble into a hash of length 4 + 2 * size_x * size_y; both decoders read it back as the same fields, and its grid as the same grid |
| Layout.ParsedFields | blurhash/blurhash.py:106-142 | a parsed hash has the length its grid requires and one AC term per component but the DC, and each symbol group decodes to its field |
| Layout.HeaderInjective | blurhash/blurhash.py:110-122 | two hashes whose header symbols decode to the same grid, maximum and DC have the same header symbols |
| Layout.CarriesInjective | blurhash/blurhash.py:106-142 | only one hash carries any given decoded fields |
| Layout.ParseInjective | blurhash/blurhash.py:106-142 | two hashes that the dense decoder reads as the same fields are the same hash |
| Layout.AssembleCanonical | blurhash/blurhash.py:424-431 | a hash read as well-formed fields is exactly the hash the encoder builds from them |
| Layout.ParseBounds | blurhash/blurhash.py:106-142 | what the dense decoder returns: size_x in [1,9], size_y in [1,10], sx * sy - 1 AC terms, max-AC value at most 82, DC red at most 724 with green and blue bytes, AC digits bounded as above |
| Layout.ParsedAccepted | blurhash/blurhash.py:106-142 | a hash the dense decoder reads has at least six symbols, all in the alphabet, and the length its header requires |
| Layout.AcceptedParsed | blurhash/blurhash.py:106-142 | every such hash is read by the dense decoder |
| Layout.ParseAccepts | blurhash/blurhash.py:106-142 | the dense decoder succeeds exactly on hashes of six or more alphabet symbols whose length matches their header |
| Layout.ParseThroughBody | blurhash/blurhash.py:191-198 | behind a decodable size symbol the swatch decoder is the shared body on the grid read; on six symbols or more the two decoders agree |
| Layout.SwatchAgrees | blurhash/blurhash.py:191-221 | the swatch decoder accepts exactly the hashes the dense decoder accepts and reads the same fields from them |
| Layout.LengthRejected | blurhash/blurhash.py:106-119 | under six symbols the dense decoder fails with HashTooShort; with decodable header symbols and a length other than 4 + 2 * size_x * size_y, both decoders fail with HashLengthMismatch before any DC or AC field is read |
| Codec.DecodeAc | blurhash/blurhash.py:132-142 | the AC loop returns what `AcFields` specifies, first failing field included |
| Codec.DecodeBody | blurhash/blurhash.py:114-142 | max-AC symbol, length check, DC and AC loop return what `ParseBody` specifies |
| Codec.Decode | blurhash/blurhash.py:106-142 | the dense decoder's integer steps return what `Parse` specifies |
| Codec.FakeDecode | blurhash/blurhash.py:191-221 | the swatch decoder's integer steps return what `ParseSwatch` specifies |
| Codec.BuildHash | blurhash/blurhash.py:424-431 | the step-by-step concatenation returns what `Assemble` specifies, failing encodes included |
| Codec.Encode | blurhash/blurhash.py:317-318 | fails exactly when a component count is outside [1,9], with InvalidComponentCount; otherwise the hash has length 4 + 2 * cx * cy and both decoders read back the given fields |
| Swatch.TileIsRowMajor | blurhash/blurhash.py:227-230 | the tile of component k + 1 is row k / sx + 1 and column k mod sx + 1 |
| Swatch.TilePlacement | blurhash/blurhash.py:227-230 | for c in 1 .. sx * sy the row is in [1,sy], the column in [1,sx], and (row - 1) * sx + column == c |
| Swatch.TileOfCell | blurhash/blurhash.py:227-230 | every cell of the grid is the tile of exactly the component that counts it in row-major order |
| Swatch.SwatchTiles | blurhash/blurhash.py:227-230 | the element loop yields sx * sy tiles in row-major order |
| Witnesses.SingleSymbols | blurhash/blurhash.py:40-46 | 82 encodes as "~" and 0 as "0"; each decodes back; 83 does not fit in one symbol |
| Witnesses.AcFieldBeyondDigits | blurhash/blurhash.py:136-140 | the field "~~" decodes to 6888 and unpacks to (19, 1, 10), a first digit the encoder never writes |
| Witnesses.DcFieldBeyondByte | blurhash/blurhash.py:125-127 | the field "~~~~" decodes to 47458320 and unpacks to (724, 40, 16); the red channel is not a byte |
| Witnesses.TenRowsAccepted | blurhash/blurhash.py:110-119 | a 24-symbol hash starting with "}" (value 81) is accepted by both decoders as a 1 x 10 grid the encoder would refuse |

## Left out

- The floating-point colour maths is not modelled: `srgb_to_linear`, `linear_to_srgb` and `sign_pow`, which rely on `math.pow` and `copysign` over doubles.
- The cosine transform sums of the encoder and both decoders are not modelled.
- `real_max_value` and the `punch` scaling are not modelled.
- The floating-point half of quantisation (lines 377-421) is not modelled. The model takes its clamped integer results as given.
- Because of that, `Codec.Encode` requires its inputs to be the clamped quantised integers: max-AC in [0,82], DC bytes, AC digits in [0,18], and sx * sy - 1 AC terms.
- Pixel and element construction in the decoders is not modelled: the `pixels` list, and the swatch centre coordinates `x` and `y`, which use float division.
- `Codec.Decode` and `Codec.FakeDecode` stop at the colour list. The swatch tile row and column are modelled separately in `Swatch`.
- `blurhash_show` and `blurhash_show_fake` are not modelled: PIL and numpy image construction, blur and display.
- Timing with `time()` and the `show_time` printing are not modelled.
- `blurhash/__init__.py` re-exports names only.
- `Codec.BuildHash`: the source first collects `ac_values` in a list, then encodes them in a second loop. The model encodes each term as it appends it. The resulting hash and its errors are the same.
- Some behaviours kept as the code is written are outside what the encoder produces:
  - the DC red channel is read without the `& 255` mask, so it can reach 724;
  - AC digits are not range-checked, so the first digit can reach 19;
  - a first symbol of value 81 or 82 gives size_y = 10, and such a hash is accepted.

  The `Witnesses` lemmas exhibit each of these. `Layout.WellFormed` states the encoder's ranges.
