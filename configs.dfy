/** The configuration record (src/config.rs), without its file format. */
module Configs {
  import opened Wrappers

  datatype Config = Config(
    interactive: bool,
    editor: Option<string>,
    alias: map<string, string>,
    vars: map<string, string>,
    env: map<string, string>)

  /** `bool::to_string` */
  function BoolText(b: bool): string {
    if b then "true" else "false"
  }
}
