/** `SiteConfig` of src/main.rs: the settings the handlers read.  It is
    built once from the environment at start-up; that loading is not part
    of this model, only the two fallback sizes it uses. */
module Site {
  import opened Common

  /** Width of the auto-generated photo URL when DEFAULT_WIDTH is unset or
      does not parse. */
  const DEFAULT_WIDTH: U32 := 1000

  /** Height of the auto-generated photo URL when DEFAULT_HEIGHT is unset or
      does not parse; zero leaves the height to the aspect ratio. */
  const DEFAULT_HEIGHT: U32 := 0

  datatype SiteConfig = SiteConfig(
    bind: string,
    /** Base URL for serving files. */
    mediaUrl: string,
    s3Bucket: string,
    /** The one user allowed to upload. */
    allowedUsername: string,
    defaultWidth: U32,
    defaultHeight: U32)
}
