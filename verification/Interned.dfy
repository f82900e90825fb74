/** Resolution of indices into a package's interning tables. */
module Interned {
  import opened Wrappers
  import opened Element
  import Wire

  function ResolveString(index: int, pkg: Wire.Package): (r: ConvertResult<string>)
    ensures r.Success? <==> 0 <= index < |pkg.strings|
  {
    if index < 0 || |pkg.strings| <= index then Failure(InternalError) else Success(pkg.strings[index])
  }

  function ResolveStrings(indices: seq<int>, pkg: Wire.Package): (r: ConvertResult<seq<string>>)
    ensures r.Success? ==> |r.value| == |indices|
  {
    if indices == [] then Success([]) else
      var head :- ResolveString(indices[0], pkg);
      var tail :- ResolveStrings(indices[1..], pkg);
      Success([head] + tail)
  }

  function ResolveDottedToIndices(index: int, pkg: Wire.Package): (r: ConvertResult<seq<int>>)
    ensures r.Success? <==> 0 <= index < |pkg.dottedNames|
  {
    if index < 0 || |pkg.dottedNames| <= index then Failure(InternalError) else Success(pkg.dottedNames[index])
  }

  function ResolveDotted(index: int, pkg: Wire.Package): ConvertResult<Path> {
    var indices :- ResolveDottedToIndices(index, pkg);
    ResolveStrings(indices, pkg)
  }

  /** Splits a dotted name into its last segment and the prefix before it. */
  function SplitLast(segments: Path, error: ConvertError): (r: ConvertResult<(string, Path)>)
    ensures r.Success? <==> segments != []
    ensures r.Success? ==> r.value.1 + [r.value.0] == segments
  {
    if segments == [] then Failure(error) else
      Success((segments[|segments| - 1], segments[..|segments| - 1]))
  }
}
