/** The Frontend and FrontendEnvironment resources, as far as the generated configuration reads them. */
module FrontendModel {
  import opened Common
  import opened NavModel

  datatype NavigationSegment = NavigationSegment(segmentID: string, navItems: seq<NavItem>)

  datatype BundleSegment = BundleSegment(segmentID: string, bundleID: string, position: nat, navItems: seq<NavItem>)

  datatype SearchEntry = SearchEntry(
    id: string, href: string, title: string, description: string, altTitle: seq<string>, isExternal: bool,
    frontendRef: string, permissions: seq<string>)

  datatype ServiceTile = ServiceTile(
    section: string, group: string, id: string, href: string, title: string, description: string, icon: string,
    isExternal: bool, frontendRef: string, permissions: seq<string>)

  datatype Widget = Widget(
    scope: string, moduleName: string, importName: string, featureFlag: string, defaults: string, config: string,
    frontendRef: string)

  datatype DashboardTemplate = DashboardTemplate(
    name: string, displayName: string, templateConfig: string, frontendRef: string)

  datatype APISpec = APISpec(url: string, bundleLabels: seq<string>, frontendName: string)

  datatype JSONValue = JSONText(text: string) | JSONOther(raw: string)

  /** A module's configuration; only an object has fields to read. */
  datatype Config = ConfigObject(fields: map<string, JSONValue>) | ConfigOther(raw: string)

  datatype FedModule = FedModule(
    moduleID: string, manifestLocation: string, fullProfile: Option<bool>, cdnPath: string, config: Option<Config>)

  datatype Frontend = Frontend(
    name: string,
    envName: string,
    feoConfigEnabled: bool,
    paths: seq<string>,
    fedModule: Option<FedModule>,
    navigationSegments: seq<NavigationSegment>,
    bundleSegments: seq<BundleSegment>,
    searchEntries: seq<Option<SearchEntry>>,
    serviceTiles: seq<ServiceTile>,
    widgetRegistry: seq<Widget>,
    baseWidgetLayouts: seq<DashboardTemplate>,
    apiSpecs: seq<APISpec>)

  datatype Bundle = Bundle(id: string, title: string, description: string)

  datatype GeneratedBundle = GeneratedBundle(id: string, title: string, description: string, navItems: seq<NavItem>)
}
