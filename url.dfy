/** URI.join, a second copy of uri.join with the same body line for line.
    It is modelled by running the same stages, so it returns what
    uri.join returns on every input. */
module Url {
  import Uri

  method Join(paths: seq<string>) returns (r: string)
    ensures r == Uri.Joined(paths)
  {
    var fragments := Uri.Fragments(paths);
    var segments := Uri.Segments(fragments);
    var stack := Uri.ResolveDots(segments);
    r := Uri.Glue(stack);
  }
}
