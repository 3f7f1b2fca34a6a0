/** Constants of the program. */
module Consts {

  /**
   * File extensions a free Neocities account accepts, in the source's order.
   * Written as rows of ten joined with `+` (the same sequence) so that a
   * question about one extension is answered row by row.
   */
  const FreeFileTypes: seq<string> :=
    ["apng", "asc", "atom", "avif", "bin", "cjs", "css", "csv", "dae", "eot"] +
    ["epub", "geojson", "gif", "glb", "glsl", "gltf", "gpg", "htm", "html", "ico"] +
    ["jpeg", "jpg", "js", "json", "key", "kml", "knowl", "less", "manifest", "map"] +
    ["markdown", "md", "mf", "mid", "midi", "mjs", "mtl", "obj", "opml", "osdx"] +
    ["otf", "pdf", "pgp", "pls", "png", "py", "rdf", "resolveHandle", "rss", "sass"] +
    ["scss", "svg", "text", "toml", "ts", "tsv", "ttf", "txt", "webapp", "webmanifest"] +
    ["webp", "woff", "woff2", "xcf", "xml", "yaml", "yml"]
}
