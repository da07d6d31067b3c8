/**
 * Platform detection and the platform tables of the toolkit's configuration:
 * which platform name the process runs under, whether root is required, and
 * which CAN interfaces the validators allow. The process-wide values
 * `Config.CURRENT_PLATFORM`, `REQUIRE_ROOT` and `ALLOWED_CAN_INTERFACES` are
 * computed once at import; here they are functions of the platform name.
 */
module Config {
  import opened Base

  const MAX_INPUT_LENGTH: nat := 1024
  const BACKUP_COUNT: nat := 3
  const DEFAULT_CAN_INTERFACE: string := "vcan0"

  /** One entry of `PLATFORM_SETTINGS`. */
  datatype PlatformSettings = PlatformSettings(
    canInterfaces: seq<string>,
    requireRoot: bool,
    packageManager: Option<string>,
    shellCommands: bool)

  const PLATFORM_SETTINGS: map<string, PlatformSettings> := map[
    "linux" := PlatformSettings(["vcan0", "can0", "can1", "slcan0"], true, Some("apt"), true),
    "android" := PlatformSettings(["vcan0"], false, Some("pkg"), true),
    "windows" := PlatformSettings(["vcan0"], false, None, true),
    "macos" := PlatformSettings(["vcan0", "can0"], true, Some("brew"), true)
  ]

  /** The names `get_platform` can return. */
  predicate IsPlatformName(p: string) {
    p == "android" || p == "linux" || p == "windows" || p == "macos" || p == "unknown"
  }

  predicate HasAndroidMarker(env: map<string, string>) {
    "ANDROID_DATA" in env || "ANDROID_ROOT" in env
  }

  /**
   * `PlatformDetector.get_platform`, given `platform.system()` and the
   * environment. Android markers win over the reported system name.
   */
  function GetPlatform(system: string, env: map<string, string>): (p: string)
    ensures IsPlatformName(p)
    ensures p == "android" <==> HasAndroidMarker(env)
    ensures !HasAndroidMarker(env) ==>
      (p == "linux" <==> Lower(system) == "linux") &&
      (p == "windows" <==> Lower(system) == "windows") &&
      (p == "macos" <==> Lower(system) == "darwin")
  {
    var s := Lower(system);
    if HasAndroidMarker(env) then "android"
    else if s == "linux" then "linux"
    else if s == "windows" then "windows"
    else if s == "darwin" then "macos"
    else "unknown"
  }

  /** `PlatformDetector.is_termux`. */
  predicate IsTermux(env: map<string, string>) {
    "TERMUX_VERSION" in env || ("PREFIX" in env && Contains(env["PREFIX"], "/data/data/com.termux"))
  }

  /** `PlatformDetector.is_root_required`: every platform except android and windows. */
  function IsRootRequired(system: string, env: map<string, string>): (r: bool)
    ensures !r <==> HasAndroidMarker(env) || (Lower(system) == "windows")
  {
    var p := GetPlatform(system, env);
    !(p == "android" || p == "windows")
  }

  /** `Config.REQUIRE_ROOT` for a platform name (default True). */
  function RequireRoot(platform: string): bool {
    if platform in PLATFORM_SETTINGS then PLATFORM_SETTINGS[platform].requireRoot else true
  }

  /** `Config.ALLOWED_CAN_INTERFACES` for a platform name (default ["vcan0"]). */
  function AllowedCanInterfaces(platform: string): (r: seq<string>)
    ensures "vcan0" in r
    ensures platform !in PLATFORM_SETTINGS ==> r == ["vcan0"]
  {
    if platform in PLATFORM_SETTINGS then PLATFORM_SETTINGS[platform].canInterfaces else ["vcan0"]
  }

  /** `Config.validate_can_interface`. */
  predicate ValidateCanInterface(platform: string, iface: string) {
    iface in AllowedCanInterfaces(platform)
  }

  /** An unknown platform gets the minimal allow-list and requires root. */
  lemma UnknownPlatformDefaults(platform: string)
    requires platform !in PLATFORM_SETTINGS
    ensures RequireRoot(platform)
    ensures forall iface :: ValidateCanInterface(platform, iface) <==> iface == "vcan0"
  {
  }

  /**
   * The two independent statements of the privilege policy agree: the table's
   * `require_root` for the detected platform is what `is_root_required` says.
   */
  lemma RequireRootAgreesWithDetector(system: string, env: map<string, string>)
    ensures RequireRoot(GetPlatform(system, env)) == IsRootRequired(system, env)
  {
    var p := GetPlatform(system, env);
    if p == "unknown" {
      assert p !in PLATFORM_SETTINGS;
    }
  }

  /** The default interface is allowed on every platform the detector can report. */
  lemma DefaultInterfaceAlwaysAllowed(system: string, env: map<string, string>)
    ensures ValidateCanInterface(GetPlatform(system, env), DEFAULT_CAN_INTERFACE)
  {
  }
}
