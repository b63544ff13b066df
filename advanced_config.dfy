/**
 * The advanced configuration: network, portal and memory sections with
 * their range checks, a feature bit mask, a cross-field validation, a
 * memory estimate, and the copy of settings into the base configuration.
 */
module AdvancedConfig {
  import opened ArduinoTypes
  import opened Errors
  import InputSanitizer
  import opened FeatureMask

  // Bounds the validators enforce
  const MinConnectionTimeoutMs: nat := 5000
  const MaxConnectionTimeoutMs: nat := 300000
  const MinChannel: nat := 1
  const MaxChannel: nat := 13
  const MinPort: nat := 80
  const MinJsonBufferSize: nat := 1024
  const MaxJsonBufferSize: nat := 32768
  const MinFileSize: nat := 1024

  datatype NetworkConfig = NetworkConfig(
    ssid: string,
    password: string,
    hostname: string,
    staticIP: IPv4,
    gateway: IPv4,
    subnet: IPv4,
    dns1: IPv4,
    dns2: IPv4,
    useStaticIP: bool,
    validateCertificates: bool,
    connectionTimeoutMs: u32,
    maxRetries: u8)
  {
    /** SSID, password, optional hostname, then the timeout window; the first failure decides the message. */
    function Validate(): (r: ACResult)
      ensures r.IsSuccess() <==>
        && InputSanitizer.IsValidSSID(ssid)
        && InputSanitizer.IsValidPassword(password)
        && (hostname == [] || InputSanitizer.IsValidHostname(hostname))
        && MinConnectionTimeoutMs <= connectionTimeoutMs <= MaxConnectionTimeoutMs
      ensures !r.IsSuccess() ==> r.error == InvalidParameter
      ensures !InputSanitizer.IsValidSSID(ssid) ==> r.message == "Invalid SSID"
      ensures InputSanitizer.IsValidSSID(ssid) && !InputSanitizer.IsValidPassword(password) ==>
        r.message == "Invalid password"
      ensures InputSanitizer.IsValidSSID(ssid) && InputSanitizer.IsValidPassword(password)
              && hostname != [] && !InputSanitizer.IsValidHostname(hostname) ==>
        r.message == "Invalid hostname"
      ensures InputSanitizer.IsValidSSID(ssid) && InputSanitizer.IsValidPassword(password)
              && (hostname == [] || InputSanitizer.IsValidHostname(hostname))
              && !(MinConnectionTimeoutMs <= connectionTimeoutMs <= MaxConnectionTimeoutMs) ==>
        r.message == "Connection timeout out of range (5-300 seconds)"
    {
      if !InputSanitizer.IsValidSSID(ssid) then ACResult(InvalidParameter, "Invalid SSID")
      else if !InputSanitizer.IsValidPassword(password) then ACResult(InvalidParameter, "Invalid password")
      else if hostname != [] && !InputSanitizer.IsValidHostname(hostname) then ACResult(InvalidParameter, "Invalid hostname")
      else if connectionTimeoutMs < MinConnectionTimeoutMs || connectionTimeoutMs > MaxConnectionTimeoutMs then
        ACResult(InvalidParameter, "Connection timeout out of range (5-300 seconds)")
      else Of(Success)
    }
  }

  function DefaultNetworkConfig(): (n: NetworkConfig)
    ensures n.connectionTimeoutMs == 30000 && n.maxRetries == 3 && !n.useStaticIP
  {
    NetworkConfig("", "", "", AnyAddress, AnyAddress, AnyAddress, AnyAddress, AnyAddress, false, false, 30000, 3)
  }

  datatype PortalConfig = PortalConfig(
    apSSID: string,
    apPassword: string,
    apIP: IPv4,
    apGateway: IPv4,
    apSubnet: IPv4,
    channel: u8,
    hidden: bool,
    enableAuth: bool,
    authRealm: string,
    authUsername: string,
    authPassword: string,
    timeoutMs: u32,
    port: u16)
  {
    /** AP SSID, AP password, channel 1..13, then port; `port > 65535` is written but a uint16_t never meets it. */
    function Validate(): (r: ACResult)
      ensures r.IsSuccess() <==>
        && InputSanitizer.IsValidSSID(apSSID)
        && InputSanitizer.IsValidPassword(apPassword)
        && MinChannel <= channel <= MaxChannel
        && port >= MinPort
      ensures !r.IsSuccess() ==> r.error == InvalidParameter
      ensures (InputSanitizer.IsValidSSID(apSSID) && InputSanitizer.IsValidPassword(apPassword)
               && !(MinChannel <= channel <= MaxChannel)) ==> r.message == "Invalid WiFi channel (1-13)"
    {
      if !InputSanitizer.IsValidSSID(apSSID) then ACResult(InvalidParameter, "Invalid AP SSID")
      else if !InputSanitizer.IsValidPassword(apPassword) then ACResult(InvalidParameter, "Invalid AP password")
      else if channel < MinChannel || channel > MaxChannel then ACResult(InvalidParameter, "Invalid WiFi channel (1-13)")
      else if port < MinPort || port > 65535 then ACResult(InvalidParameter, "Invalid port number")
      else Of(Success)
    }
  }

  /** The defaults: AP 172.217.28.1/24, channel 1, port 80, no timeout, and the given AP name and passphrase. */
  function DefaultPortalConfig(apSSID: string, apPassword: string): (p: PortalConfig)
    ensures p.channel == 1 && p.port == 80 && p.timeoutMs == 0 && !p.hidden
    ensures p.apSSID == apSSID && p.apPassword == apPassword
  {
    PortalConfig(apSSID, apPassword, IPv4(172, 217, 28, 1), IPv4(172, 217, 28, 1), IPv4(255, 255, 255, 0),
                 1, false, false, "AutoConnect", "", "", 0, 80)
  }

  datatype MemoryConfig = MemoryConfig(
    jsonBufferSize: u32,
    maxStringLength: u32,
    lowMemoryThreshold: u32,
    enableMemoryMonitoring: bool,
    enableGarbageCollection: bool,
    gcIntervalMs: u32)
  {
    /** The JSON buffer is 1 KiB..32 KiB and a string fits in half of it (integer division). */
    function Validate(): (r: ACResult)
      ensures r.IsSuccess() <==>
        && MinJsonBufferSize <= jsonBufferSize <= MaxJsonBufferSize
        && 2 * maxStringLength <= jsonBufferSize
      ensures !r.IsSuccess() ==> r.error == InvalidParameter
    {
      if jsonBufferSize < MinJsonBufferSize || jsonBufferSize > MaxJsonBufferSize then
        ACResult(InvalidParameter, "JSON buffer size out of range (1-32KB)")
      else if maxStringLength > jsonBufferSize / 2 then
        ACResult(InvalidParameter, "Max string length too large for JSON buffer")
      else Of(Success)
    }
  }

  function DefaultMemoryConfig(): (m: MemoryConfig)
    ensures m.Validate().IsSuccess()
    ensures m.jsonBufferSize == 8192 && m.maxStringLength == 4096
  {
    MemoryConfig(8192, 4096, 4096, true, false, 30000)
  }

  datatype SecurityConfig = SecurityConfig(
    enableInputSanitization: bool,
    enableCSRFProtection: bool,
    enableRateLimiting: bool,
    maxRequestsPerMinute: u32,
    logSecurityEvents: bool,
    strictSSL: bool)

  const DefaultSecurityConfig := SecurityConfig(true, false, false, 60, true, false)

  datatype DebugConfig = DebugConfig(
    enableSerial: bool,
    enableFile: bool,
    logFilePath: string,
    maxLogFileSize: u32,
    logLevel: u8,
    timestampLogs: bool,
    memoryStats: bool)

  const DefaultDebugConfig := DebugConfig(false, false, "/autoconnect.log", 1024 * 1024, 2, true, false)

  /** The base-class settings applyToBase writes (AutoConnectConfigBase is not part of this model). */
  datatype BaseSettings = BaseSettings(
    apid: string,
    psk: string,
    apip: IPv4,
    gateway: IPv4,
    netmask: IPv4,
    channel: u8,
    hidden: u8,
    hostName: string,
    beginTimeout: u32,
    portalTimeout: u32,
    ticker: bool)

  class AutoConnectAdvancedConfig {
    var enabledFeatures: bv32
    var network: NetworkConfig
    var portal: PortalConfig
    var memory: MemoryConfig
    var security: SecurityConfig
    var debug: DebugConfig
    var formatFSOnFail: bool
    var maxFileSize: u32
    var maxFiles: u16
    var base: BaseSettings

    /**
     * `defaultApid` and `defaultPsk` stand for the AUTOCONNECT_APID and
     * AUTOCONNECT_PSK macros; `initialBase` is what the base constructor leaves.
     */
    constructor (features: bv32, defaultApid: string, defaultPsk: string, initialBase: BaseSettings)
      ensures enabledFeatures == features
      ensures network == DefaultNetworkConfig()
      ensures portal == DefaultPortalConfig(defaultApid, defaultPsk)
      ensures memory == DefaultMemoryConfig() && debug == DefaultDebugConfig
      ensures security == DefaultSecurityConfig
      ensures maxFileSize == 1024 * 1024 && maxFiles == 50 && !formatFSOnFail
      ensures base == initialBase
    {
      enabledFeatures := features;
      network := DefaultNetworkConfig();
      portal := DefaultPortalConfig(defaultApid, defaultPsk);
      memory := DefaultMemoryConfig();
      security := DefaultSecurityConfig;
      debug := DefaultDebugConfig;
      formatFSOnFail := false;
      maxFileSize := 1024 * 1024;
      maxFiles := 50;
      base := initialBase;
    }

    /** A feature is enabled when some bit of it is set; all of its bits set is enough, none is not. */
    predicate HasFeature(feature: bv32): (b: bool)
      reads this
      ensures feature == 0 || enabledFeatures == 0 ==> !b
      ensures feature != 0 && enabledFeatures & feature == feature ==> b
    {
      MaskHas(enabledFeatures, feature)
    }

    /** Network, portal, memory, then the two cross-field rules; the first failure is returned. */
    function Validate(): (r: ACResult)
      reads this
      ensures r.IsSuccess() <==>
        && network.Validate().IsSuccess()
        && portal.Validate().IsSuccess()
        && memory.Validate().IsSuccess()
        && (HasFeature(FeatureFilesystem) ==> maxFileSize >= MinFileSize)
        && (HasFeature(FeatureDebug) && debug.enableFile ==> HasFeature(FeatureFilesystem))
      ensures !network.Validate().IsSuccess() ==> r == network.Validate()
      ensures network.Validate().IsSuccess() && !portal.Validate().IsSuccess() ==> r == portal.Validate()
      ensures network.Validate().IsSuccess() && portal.Validate().IsSuccess() && !memory.Validate().IsSuccess() ==>
        r == memory.Validate()
      ensures !r.IsSuccess() ==> r.error == InvalidParameter
      ensures network.Validate().IsSuccess() && portal.Validate().IsSuccess() && memory.Validate().IsSuccess()
              && HasFeature(FeatureFilesystem) && maxFileSize < MinFileSize ==>
        r.message == "Max file size too small"
      ensures network.Validate().IsSuccess() && portal.Validate().IsSuccess() && memory.Validate().IsSuccess()
              && (HasFeature(FeatureFilesystem) ==> maxFileSize >= MinFileSize)
              && HasFeature(FeatureDebug) && debug.enableFile && !HasFeature(FeatureFilesystem) ==>
        r.message == "File logging requires filesystem feature"
    {
      var n := network.Validate();
      if !n.AsBool() then n
      else
        var p := portal.Validate();
        if !p.AsBool() then p
        else
          var m := memory.Validate();
          if !m.AsBool() then m
          else if HasFeature(FeatureFilesystem) && maxFileSize < MinFileSize then
            ACResult(InvalidParameter, "Max file size too small")
          else if HasFeature(FeatureDebug) && debug.enableFile && !HasFeature(FeatureFilesystem) then
            ACResult(InvalidParameter, "File logging requires filesystem feature")
          else Of(Success)
    }

    /** Sets exactly the bits of `feature` (see WithFeature). */
    method EnableFeature(feature: bv32)
      modifies this
      ensures enabledFeatures == WithFeature(old(enabledFeatures), feature)
      ensures network == old(network) && portal == old(portal) && memory == old(memory)
      ensures debug == old(debug) && maxFileSize == old(maxFileSize) && base == old(base)
      ensures security == old(security) && formatFSOnFail == old(formatFSOnFail) && maxFiles == old(maxFiles)
    {
      enabledFeatures := WithFeature(enabledFeatures, feature);
    }

    /** Clears exactly the bits of `feature` (see WithoutFeature). */
    method DisableFeature(feature: bv32)
      modifies this
      ensures enabledFeatures == WithoutFeature(old(enabledFeatures), feature)
      ensures network == old(network) && portal == old(portal) && memory == old(memory)
      ensures debug == old(debug) && maxFileSize == old(maxFileSize) && base == old(base)
      ensures security == old(security) && formatFSOnFail == old(formatFSOnFail) && maxFiles == old(maxFiles)
    {
      enabledFeatures := WithoutFeature(enabledFeatures, feature);
    }

    /** The object's own size (sizeof(*this), an input here), the JSON buffer and per-feature overheads. */
    function EstimateMemoryUsage(objectSize: nat): (usage: nat)
      reads this
      ensures objectSize + memory.jsonBufferSize <= usage
      ensures usage <= objectSize + memory.jsonBufferSize + FilesystemOverhead + OtaOverhead + PortalOverhead
      ensures HasFeature(FeaturePortal) ==> usage >= objectSize + memory.jsonBufferSize + PortalOverhead
      ensures HasFeature(FeatureFilesystem) ==> usage >= objectSize + memory.jsonBufferSize + FilesystemOverhead
      ensures HasFeature(FeatureOta) ==> usage >= objectSize + memory.jsonBufferSize + OtaOverhead
    {
      objectSize + memory.jsonBufferSize + FeatureOverhead(enabledFeatures)
    }

    /**
     * Copies the portal and network settings into the base fields; the AP
     * name, passphrase and hostname only when they are non-empty.
     */
    method ApplyToBase()
      modifies this
      ensures base.apid == if portal.apSSID != [] then portal.apSSID else old(base.apid)
      ensures base.psk == if portal.apPassword != [] then portal.apPassword else old(base.psk)
      ensures base.hostName == if network.hostname != [] then network.hostname else old(base.hostName)
      ensures base.apip == portal.apIP && base.gateway == portal.apGateway && base.netmask == portal.apSubnet
      ensures base.channel == portal.channel && base.hidden == (if portal.hidden then 1 else 0)
      ensures base.beginTimeout == network.connectionTimeoutMs && base.portalTimeout == portal.timeoutMs
      ensures base.ticker == HasFeature(FeatureTicker)
      ensures enabledFeatures == old(enabledFeatures) && network == old(network) && portal == old(portal)
      ensures memory == old(memory) && debug == old(debug) && maxFileSize == old(maxFileSize)
      ensures security == old(security) && formatFSOnFail == old(formatFSOnFail) && maxFiles == old(maxFiles)
    {
      var apid := if portal.apSSID != [] then portal.apSSID else base.apid;
      var psk := if portal.apPassword != [] then portal.apPassword else base.psk;
      var hidden: u8 := if portal.hidden then 1 else 0;
      var hostName := if network.hostname != [] then network.hostname else base.hostName;
      var ticker := HasFeature(FeatureTicker);
      base := BaseSettings(apid, psk, portal.apIP, portal.apGateway, portal.apSubnet, portal.channel, hidden,
                           hostName, network.connectionTimeoutMs, portal.timeoutMs, ticker);
    }
  }

  /** The default network SSID is empty, so a configuration left at the network defaults fails validation on its SSID. */
  lemma DefaultsNeedAnSsid(c: AutoConnectAdvancedConfig)
    requires c.network == DefaultNetworkConfig()
    ensures !c.Validate().IsSuccess() && c.Validate().message == "Invalid SSID"
  {
  }
}
